/** What the keys and commands of src/home/edit.c do to the text, and when the cursor is on the screen. */
module EditorSpec {
  import opened Bytes
  import Directory
  import opened TextLines

  const BUF_MAX := 65536
  const TEXT_ROWS := 23
  const COLS := 80

  const KEY_UP := 0xE0
  const KEY_DOWN := 0xE1
  const KEY_LEFT := 0xE2
  const KEY_RIGHT := 0xE3
  const KEY_ESC := 0x1B
  const KEY_BACKSPACE := 8
  const KEY_TAB := 9
  const KEY_ENTER := 10

  // ---------------------------------------------------------------- what a key does

  /** The text and the cursor. */
  datatype Doc = Doc(text: seq<byte>, pos: nat)

  predicate DocOk(d: Doc) {
    d.pos <= |d.text| < BUF_MAX
  }

  /** `n` characters typed at the cursor; a full buffer takes none of them. */
  function Typed(d: Doc, c: byte, n: nat): Doc
    requires DocOk(d)
  {
    if |d.text| + n >= BUF_MAX then d
    else Doc(d.text[..d.pos] + seq(n, i => c) + d.text[d.pos..], d.pos + n)
  }

  function Erased(d: Doc): Doc
    requires DocOk(d)
  {
    if d.pos == 0 then d else Doc(d.text[..d.pos - 1] + d.text[d.pos..], d.pos - 1)
  }

  /** Typing one character and erasing it changes nothing, unless the buffer was full. */
  lemma EraseUndoesTyping(d: Doc, c: byte)
    requires DocOk(d)
    ensures DocOk(Typed(d, c, 1)) && (|d.text| + 1 < BUF_MAX ==> Erased(Typed(d, c, 1)) == d)
  {
    if |d.text| + 1 < BUF_MAX {
      var t := Typed(d, c, 1).text;
      assert t[..d.pos] == d.text[..d.pos];
      assert t[d.pos + 1..] == d.text[d.pos..];
      assert d.text[..d.pos] + d.text[d.pos..] == d.text;
    }
  }

  /** The cursor moved to the line starting at `start`, keeping its column as well as that line allows. */
  predicate MovedTo(before: Doc, after: Doc, start: nat)
    requires DocOk(before) && start <= |before.text|
  {
    after.text == before.text && LastAtOrBefore(before.text, start, Column(before.text, before.pos), after.pos)
  }

  /** Edits touch nothing before `top`, or join the line at `top` to the one before and put the cursor there. */
  predicate TopStands(before: Doc, after: Doc, top: nat) {
    && top <= |after.text| + 1 && after.pos <= |after.text|
    && (LineStart(before.text, top) ==> LineStart(after.text, top) || LineBegin(after.text, after.pos) < top)
  }

  lemma TypingKeepsTop(d: Doc, c: byte, n: nat, top: nat)
    requires DocOk(d) && top <= d.pos
    ensures DocOk(Typed(d, c, n)) && TopStands(d, Typed(d, c, n), top)
  {
    assert top > 0 && |d.text| + n < BUF_MAX ==> Typed(d, c, n).text[top - 1] == d.text[top - 1];
  }

  lemma ErasingKeepsTop(d: Doc, top: nat)
    requires DocOk(d) && top <= d.pos
    ensures DocOk(Erased(d)) && TopStands(d, Erased(d), top)
  {
    if 0 < top < d.pos {
      assert Erased(d).text[top - 1] == d.text[top - 1];
    }
  }

  lemma SameTextKeepsTop(before: Doc, after: Doc, top: nat)
    requires DocOk(before) && after.text == before.text && after.pos <= |after.text| && top <= |before.text|
    ensures TopStands(before, after, top)
  {
  }

  /** What each key means for the text and the cursor. */
  predicate KeyDone(before: Doc, after: Doc, k: int)
    requires DocOk(before)
  {
    var t, p := before.text, before.pos;
    if k == KEY_LEFT then after == Doc(t, if p > 0 then p - 1 else 0)
    else if k == KEY_RIGHT then after == Doc(t, if p < |t| then p + 1 else p)
    else if k == KEY_UP then
      if LineBegin(t, p) > 0 then MovedTo(before, after, LineBegin(t, LineBegin(t, p) - 1)) else after == before
    else if k == KEY_DOWN then
      if LineEnd(t, p) < |t| then MovedTo(before, after, LineEnd(t, p) + 1) else after == before
    else if k == KEY_BACKSPACE then after == Erased(before)
    else if k == KEY_TAB then after == Typed(before, 32, TAB_W - Column(t, p) % TAB_W)
    else if k == KEY_ENTER then after == Typed(before, NEWLINE, 1)
    else if 32 <= k <= 126 then after == Typed(before, k, 1)
    else after == before
  }

  // ---------------------------------------------------------------- the window

  /** The cursor's line is at or below the top one and at most `TEXT_ROWS - 1` lines down. */
  predicate RowShown(t: seq<byte>, top: int, pos: nat)
    requires pos <= |t|
  {
    0 <= top <= LineBegin(t, pos) && Newlines(t, top, LineBegin(t, pos)) <= TEXT_ROWS - 1
  }

  predicate ColumnShown(t: seq<byte>, offx: int, pos: nat)
    requires pos <= |t|
  {
    0 <= offx <= Column(t, pos) < offx + COLS
  }

  // ---------------------------------------------------------------- the command line

  const SPACE: byte := 32
  const BANG: byte := 33
  const E: byte := 101
  const N: byte := 110
  const Q: byte := 113
  const W: byte := 119

  /** What reading a file with a limit of BUF_MAX - 1 bytes gives; a device error can come after some bytes were stored. */
  datatype FileRead = NoFile | Broken(stored: seq<byte>) | Bytes(bytes: seq<byte>)

  /** What the file system answers, should the key lead to a call: the file read, and whether a write succeeds. */
  datatype Io = Io(read: FileRead, writes: bool)

  predicate IoOk(io: Io) {
    match io.read
    case NoFile => true
    case Broken(stored) => |stored| < BUF_MAX
    case Bytes(bytes) => |bytes| < BUF_MAX
  }

  datatype Command = Nothing | Quit(force: bool) | Save(thenQuit: bool) | SaveAs(name: seq<byte>) | New | Open(file: seq<byte>) | Unknown

  function SkipSpaces(s: seq<byte>): seq<byte> {
    if s != [] && s[0] == SPACE then SkipSpaces(s[1..]) else s
  }

  function DropSpaces(s: seq<byte>): seq<byte> {
    if s != [] && s[|s| - 1] == SPACE then DropSpaces(s[..|s| - 1]) else s
  }

  /** The command a line without outer spaces stands for. */
  function Parse(c: seq<byte>): Command {
    if c == [] then Nothing
    else if c == [Q] then Quit(false)
    else if c == [Q, BANG] then Quit(true)
    else if c == [W] then Save(false)
    else if c == [W, Q] then Save(true)
    else if c == [N] then New
    else if |c| > 1 && c[0] == E && c[1] == SPACE then Open(SkipSpaces(c[1..]))
    else if |c| > 1 && c[0] == W && c[1] == SPACE then SaveAs(SkipSpaces(c[1..]))
    else Unknown
  }

  /** What is being edited. `clean` is the text as it was last loaded, saved or started; `stored` is what was saved, by name. */
  datatype Work = Work(doc: Doc, dirty: bool, name: seq<byte>, quit: bool, clean: seq<byte>, stored: map<seq<byte>, seq<byte>>)

  /** The first bytes replaced, the length kept. */
  function Overlaid(text: seq<byte>, bytes: seq<byte>): (t: seq<byte>)
    ensures |t| == |text|
  {
    if |bytes| >= |text| then bytes[..|text|] else bytes + text[|bytes|..]
  }

  predicate SaveWorks(name: seq<byte>, writes: bool) {
    0 < |name| < Directory.MAX_NAME && writes
  }

  function Saved(w: Work, name: seq<byte>, writes: bool): Work {
    if SaveWorks(name, writes) then
      w.(dirty := false, name := name, clean := w.doc.text, stored := w.stored[name := w.doc.text])
    else w
  }

  function Opened(w: Work, name: seq<byte>, read: FileRead): Work {
    match read
    case NoFile => w
    case Broken(stored) => w.(doc := Doc(Overlaid(w.doc.text, stored), w.doc.pos))
    case Bytes(bytes) => w.(doc := Doc(bytes, 0), dirty := false, name := name, clean := bytes)
  }

  /** What a command does. */
  function Ran(w: Work, c: Command, io: Io): Work {
    match c
    case Nothing | Unknown => w
    case Quit(force) => if force || !w.dirty then w.(quit := true) else w
    case Save(thenQuit) =>
      var s := Saved(w, w.name, io.writes);
      if thenQuit && SaveWorks(w.name, io.writes) then s.(quit := true) else s
    case SaveAs(name) => Saved(w, name, io.writes)
    case New => if w.dirty then w else w.(doc := Doc([], 0), name := [], clean := [])
    case Open(file) => if w.dirty || |file| >= Directory.MAX_NAME then w else Opened(w, file, io.read)
  }

  /** What an editing key does to the work: any change of the text marks it as changed. */
  predicate Edited(before: Work, after: Work, k: int)
    requires DocOk(before.doc)
  {
    && KeyDone(before.doc, after.doc, k)
    && after == before.(doc := after.doc, dirty := before.dirty || |after.doc.text| != |before.doc.text|)
  }

  /** The command line: closed, or being typed. */
  datatype Prompt = Closed | Typing(line: seq<byte>)

  const CMD_MAX := 50

  function NextPrompt(p: Prompt, k: int): Prompt {
    match p
    case Closed => if k == KEY_ESC then Typing([]) else p
    case Typing(line) =>
      if k == KEY_ESC || k == KEY_ENTER then Closed
      else if k == KEY_BACKSPACE then if line == [] then Closed else Typing(line[..|line| - 1])
      else if 32 <= k <= 126 && |line| < CMD_MAX then Typing(line + [k])
      else p
  }

  /** The command a key runs: enter runs the line typed, every other key none. */
  function CommandAt(p: Prompt, k: int): Command {
    if p.Typing? && k == KEY_ENTER then Parse(DropSpaces(SkipSpaces(p.line))) else Nothing
  }

  /** What one key does to the work. */
  predicate Pressed(before: Work, after: Work, p: Prompt, k: int, io: Io)
    requires DocOk(before.doc)
  {
    if p.Closed? then Edited(before, after, k) else after == Ran(before, CommandAt(p, k), io)
  }

  predicate NoneBroken(keys: seq<(int, Io)>) {
    forall i :: 0 <= i < |keys| ==> !keys[i].1.read.Broken?
  }

  /** An unmarked text is the one last loaded, saved or started. */
  predicate Honest(w: Work) {
    w.dirty || w.doc.text == w.clean
  }

  /** A key keeps the mark honest when no read breaks off, and only q! quits with other text than the clean one. */
  lemma PressedStaysHonest(before: Work, after: Work, p: Prompt, k: int, io: Io)
    requires DocOk(before.doc) && Pressed(before, after, p, k, io) && Honest(before) && !io.read.Broken? && !before.quit
    ensures Honest(after) && (after.quit && CommandAt(p, k) != Quit(true) ==> after.doc.text == after.clean)
  {
    if p.Typing? {
      RanStaysHonestIff(before, CommandAt(p, k), io);
      if after.quit {
        QuitIsSafe(before, CommandAt(p, k), io);
      }
    } else if |after.doc.text| == |before.doc.text| {
      SameLengthSameText(before.doc, after.doc, k);
    }
  }

  /** A key that leaves the length leaves the text. */
  lemma SameLengthSameText(before: Doc, after: Doc, k: int)
    requires DocOk(before) && KeyDone(before, after, k) && |after.text| == |before.text|
    ensures after.text == before.text
  {
  }

  /** Commands keep the mark honest exactly unless a file read breaks off over different bytes. */
  lemma RanStaysHonestIff(w: Work, c: Command, io: Io)
    requires Honest(w)
    ensures Honest(Ran(w, c, io)) <==>
            !(c.Open? && !w.dirty && |c.file| < Directory.MAX_NAME && io.read.Broken? && Overlaid(w.doc.text, io.read.stored) != w.doc.text)
  {
  }

  /**
   * A file of which one sector arrives before the disk fails: "no such file" is reported, nothing is marked, the start of the
   * text is that file's, and the next save puts the mixture under the old name.
   */
  lemma BrokenReadIsSaved(text: seq<byte>, sector: seq<byte>, name: seq<byte>, file: seq<byte>)
    requires 512 == |sector| < |text| < BUF_MAX && text[..512] != sector && 0 < |name| < Directory.MAX_NAME && |file| < Directory.MAX_NAME
    ensures var w := Work(Doc(text, 0), false, name, false, text, map[name := text]);
            var broken := Ran(w, Open(file), Io(Broken(sector), true));
            var after := Ran(broken, Save(false), Io(NoFile, true));
            Honest(w) && !broken.dirty && broken.name == name && after.stored == map[name := sector + text[512..]] && sector + text[512..] != text
  {
    var mixed := sector + text[512..];
    assert mixed[..512] == sector;
    assert map[name := text][name := mixed] == map[name := mixed];
  }

  /** Only q! ends the editor with text that is not the last one loaded, saved or started; after wq it is stored under the name. */
  lemma QuitIsSafe(w: Work, c: Command, io: Io)
    requires Honest(w) && !w.quit && Ran(w, c, io).quit
    ensures c.Quit? || c.Save?
    ensures c != Quit(true) ==> Ran(w, c, io).doc.text == Ran(w, c, io).clean
    ensures c == Save(true) ==> w.name in Ran(w, c, io).stored && Ran(w, c, io).stored[w.name] == w.doc.text
  {
  }

  /** No command throws changed text away, except q!, which ends the editor. */
  lemma ChangedTextSurvives(w: Work, c: Command, io: Io)
    requires w.dirty && !w.quit
    ensures Ran(w, c, io).doc == w.doc
    ensures Ran(w, c, io).quit ==> c == Quit(true) || (w.name in Ran(w, c, io).stored && Ran(w, c, io).stored[w.name] == w.doc.text)
  {
  }

  /** Characters typed one after the other, newlines among them, stand in the text in this order where the cursor was. */
  lemma {:induction false} TypingInserts(docs: seq<Doc>, chars: seq<byte>)
    requires |docs| == |chars| + 1 && DocOk(docs[0]) && (forall i :: 0 <= i < |docs| ==> DocOk(docs[i]))
    requires forall i :: 0 <= i < |chars| ==> (32 <= chars[i] <= 126 || chars[i] == 10) && KeyDone(docs[i], docs[i + 1], chars[i])
    requires |docs[0].text| + |chars| < 65536
    ensures var p, t := docs[0].pos, docs[0].text; docs[|chars|] == Doc(t[..p] + chars + t[p..], p + |chars|)
  {
    var n, p, t := |chars|, docs[0].pos, docs[0].text;
    if n == 0 {
      assert t[..p] + chars + t[p..] == t;
    } else {
      TypingInserts(docs[..n], chars[..n - 1]);
      var d := docs[n - 1];
      assert docs[..n][n - 1] == d && d.text == t[..p] + chars[..n - 1] + t[p..];
      assert d.text[..d.pos] == t[..p] + chars[..n - 1] && d.text[d.pos..] == t[p..];
      assert seq(1, i => chars[n - 1]) == [chars[n - 1]] && chars[..n - 1] + [chars[n - 1]] == chars;
      OneTyped(d, docs[n], chars[n - 1]);
    }
  }

  lemma OneTyped(before: Doc, after: Doc, c: byte)
    requires DocOk(before) && KeyDone(before, after, c) && (32 <= c <= 126 || c == 10) && |before.text| + 1 < BUF_MAX
    ensures after == Doc(before.text[..before.pos] + [c] + before.text[before.pos..], before.pos + 1)
  {
    assert seq(1, i => c) == [c];
  }
}
