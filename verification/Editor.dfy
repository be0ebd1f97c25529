/** The editor of src/home/edit.c: its buffer, its keys and the window that follows the cursor. */
module TextEditor {
  import opened Bytes
  import Directory
  import opened EditorCommands
  import opened EditorSpec
  import opened TextLines

  class Editor {
    var buf: array<byte>
    var len: int
    var pos: int
    var top: int
    var offx: int
    var dirty: bool
    var cmdMode: bool
    var cmdLen: int
    var quit: bool
    var cmd: array<byte>
    var fname: seq<byte>
    /** The text last loaded, saved or started, and what was saved under which name. */
    ghost var clean: seq<byte>
    ghost var stored: map<seq<byte>, seq<byte>>

    ghost predicate Valid()
      reads this
    {
      && buf.Length == BUF_MAX && 0 <= pos <= len < BUF_MAX && 0 <= top && 0 <= offx
      && cmd.Length == CMD_MAX + 1 && 0 <= cmdLen <= CMD_MAX && buf != cmd && |fname| < Directory.MAX_NAME
    }

    ghost function Text(): seq<byte>
      reads this, buf
      requires Valid()
    {
      buf[..len]
    }

    ghost function Document(): Doc
      reads this, buf
      requires Valid()
    {
      Doc(Text(), pos)
    }

    ghost function Work(): Work
      reads this, buf
      requires Valid()
    {
      EditorSpec.Work(Document(), dirty, fname, quit, clean, stored)
    }

    ghost function Prompt(): Prompt
      reads this, cmd
      requires Valid()
    {
      if cmdMode then Typing(cmd[..cmdLen]) else Closed
    }

    /** The screen starts with the first character of a line. */
    ghost predicate Aligned()
      reads this, buf
      requires Valid()
    {
      LineStart(Text(), top)
    }

    /** The cursor is on the screen. */
    ghost predicate Shown()
      reads this, buf
      requires Valid()
    {
      RowShown(Text(), top, pos) && ColumnShown(Text(), offx, pos)
    }

    constructor ()
      ensures Valid() && fresh(buf) && fresh(cmd) && Shown() && Aligned() && !cmdMode
      ensures Work() == EditorSpec.Work(Doc([], 0), false, [], false, [], map[])
    {
      buf := new byte[BUF_MAX](_ => 0);
      cmd := new byte[CMD_MAX + 1](_ => 0);
      len, pos, top, offx := 0, 0, 0, 0;
      dirty, cmdMode, cmdLen, quit := false, false, 0, false;
      fname, clean, stored := [], [], map[];
      new;
      assert Text() == [];
    }

    method LineBegin(p: int) returns (b: int)
      requires Valid() && 0 <= p <= len
      ensures b == TextLines.LineBegin(Text(), p)
    {
      b := p;
      while b > 0 && buf[b - 1] != NEWLINE
        invariant 0 <= b <= p && TextLines.LineBegin(Text(), b) == TextLines.LineBegin(Text(), p)
      {
        b := b - 1;
      }
    }

    method LineEnd(p: int) returns (e: int)
      requires Valid() && 0 <= p <= len
      ensures e == TextLines.LineEnd(Text(), p)
    {
      e := p;
      while e < len && buf[e] != NEWLINE
        invariant p <= e <= len && TextLines.LineEnd(Text(), e) == TextLines.LineEnd(Text(), p)
      {
        e := e + 1;
      }
    }

    method ColOf(p: int) returns (c: nat)
      requires Valid() && 0 <= p <= len
      ensures c == Column(Text(), p)
    {
      c := 0;
      var i := LineBegin(p);
      ghost var start := i;
      while i < p
        invariant start <= i <= p && c == ColumnFrom(Text(), start, i)
      {
        if buf[i] == TAB {
          c := c + (TAB_W - c % TAB_W);
        } else {
          c := c + 1;
        }
        i := i + 1;
      }
    }

    /** pos_for_col: the last position on the line that is not right of the target column. */
    method PosForCol(start: int, target: nat) returns (i: int)
      requires Valid() && 0 <= start <= len
      ensures start <= i <= len && LastAtOrBefore(Text(), start, target, i)
    {
      var e := LineEnd(start);
      var c := 0;
      i := start;
      while i < e && c < target
        invariant start <= i <= e && c == ColumnFrom(Text(), start, i)
        invariant i > start ==> ColumnFrom(Text(), start, i - 1) < target
      {
        c := c + if buf[i] == TAB then TAB_W - c % TAB_W else 1;
        i := i + 1;
      }
      if c > target && i > start {
        i := i - 1;
      }
      forall q: nat | i < q <= e ensures ColumnFrom(Text(), start, q) > target {
        ColumnsGrow(Text(), start, i, q);
        if i + 1 < q { ColumnsGrow(Text(), start, i + 1, q); }
      }
    }

    /** do_insert: the tail is copied up from its far end, then the gap is filled. */
    method DoInsert(c: byte, n: nat)
      requires Valid() && n >= 1
      modifies this`pos, this`len, this`dirty, buf
      ensures Valid() && Document() == Typed(old(Document()), c, n)
      ensures dirty == (old(dirty) || len != old(len))
    {
      if len + n >= BUF_MAX {
        return;
      }
      ghost var t, p := Text(), pos;
      CopyUp(n);
      Fill(c, n);
      pos := pos + n;
      len := len + n;
      dirty := true;
      InsertedIs(t, Text(), p, c, n);
    }

    method CopyUp(n: nat)
      requires Valid() && n >= 1 && len + n < BUF_MAX
      modifies buf
      ensures forall k :: 0 <= k < pos ==> buf[k] == old(buf[k])
      ensures forall k :: pos + n <= k < len + n ==> buf[k] == old(buf[k - n])
    {
      var i := len - 1;
      while i >= pos
        invariant pos - 1 <= i < len
        invariant forall k :: 0 <= k <= i ==> buf[k] == old(buf[k])
        invariant forall k :: 0 <= k < pos ==> buf[k] == old(buf[k])
        invariant forall k :: i + n < k < len + n ==> buf[k] == old(buf[k - n])
      {
        buf[i + n] := buf[i];
        i := i - 1;
      }
    }

    method Fill(c: byte, n: nat)
      requires Valid() && pos + n < BUF_MAX
      modifies buf
      ensures forall k :: 0 <= k < BUF_MAX && !(pos <= k < pos + n) ==> buf[k] == old(buf[k])
      ensures forall k :: pos <= k < pos + n ==> buf[k] == c
    {
      var i := 0;
      while i < n
        invariant 0 <= i <= n
        invariant forall k :: 0 <= k < BUF_MAX && !(pos <= k < pos + i) ==> buf[k] == old(buf[k])
        invariant forall k :: pos <= k < pos + i ==> buf[k] == c
      {
        buf[pos + i] := c;
        i := i + 1;
      }
    }

    /** do_backspace: the tail is copied down over the erased character. */
    method DoBackspace()
      requires Valid()
      modifies this`pos, this`len, this`dirty, buf
      ensures Valid() && Document() == Erased(old(Document()))
      ensures dirty == (old(dirty) || len != old(len))
    {
      if pos <= 0 {
        return;
      }
      ghost var t, p := Text(), pos;
      var i := pos;
      while i < len
        invariant pos <= i <= len
        invariant forall k :: 0 <= k < pos - 1 ==> buf[k] == old(buf[k])
        invariant forall k :: pos - 1 <= k < i - 1 ==> buf[k] == old(buf[k + 1])
        invariant forall k :: i <= k < len ==> buf[k] == old(buf[k])
        modifies buf
      {
        buf[i - 1] := buf[i];
        i := i + 1;
      }
      pos := pos - 1;
      len := len - 1;
      dirty := true;
      assert Text() == t[..p - 1] + t[p..];
    }

    /** One round of the main loop: a key for the text or for the command line, then the view is put right. */
    method Press(k: int, io: Io)
      requires Valid() && Shown() && !quit && IoOk(io)
      modifies this, buf, cmd
      ensures Valid() && Shown() && buf == old(buf) && cmd == old(cmd)
      ensures Pressed(old(Work()), Work(), old(Prompt()), k, io) && Prompt() == NextPrompt(old(Prompt()), k)
      ensures old(Aligned()) && !io.read.Broken? ==> Aligned()
    {
      hide Edited, Ran, Parse, RowShown, ColumnShown, TextLines.LineBegin, Newlines, Column;
      TopOfShown(Document(), top);
      if cmdMode {
        CmdKey(k, io);
      } else {
        EditKey(k);
      }
      if quit {
        return;
      }
      ScrollFix();
    }

    /**
     * A whole session, until the keys run out or the editor quits. If no read breaks off, the cursor stays shown and the mark
     * honest, and the editor ends with text other than the last one loaded, saved or started only after q! and enter were typed.
     * Nothing is stored unless w, wq or w with a name was typed.
     */
    method Session(keys: seq<(int, Io)>) returns (used: nat)
      requires Valid() && Shown() && !quit && forall i :: 0 <= i < |keys| ==> IoOk(keys[i].1)
      modifies this, buf, cmd
      ensures Valid() && Shown() && used <= |keys| && (used == |keys| || quit)
      ensures Prompt() == PromptAfter(old(Prompt()), keys[..used])
      ensures NoneBroken(keys) && old(Aligned()) && old(Honest(Work())) ==>
                Aligned() && Honest(Work()) && (quit && Text() != clean ==> Entered(old(Prompt()), keys, used - 1, [113, 33]))
      ensures stored != old(stored) ==> exists i :: 0 <= i < used && SaveEntered(old(Prompt()), keys, i)
    {
      hide RowShown, ColumnShown, Pressed, CommandAt, NextPrompt, PromptAfter, Entered, SaveEntered, Says, SaysName;
      used := 0;
      ghost var start := Prompt();
      assert keys[..0] == [] && PromptAfter(start, keys[..0]) == start by { NoKeys(start, keys); }
      while used < |keys| && !quit
        invariant 0 <= used <= |keys| && Valid() && Shown() && buf == old(buf) && cmd == old(cmd)
        invariant Prompt() == PromptAfter(start, keys[..used])
        invariant NoneBroken(keys) && old(Aligned()) && old(Honest(Work())) ==>
                    Aligned() && Honest(Work()) && (quit && Text() != clean ==> Entered(start, keys, used - 1, [113, 33]))
        invariant stored != old(stored) ==> exists i :: 0 <= i < used && SaveEntered(start, keys, i)
      {
        ghost var before := Work();
        var (k, io) := keys[used];
        Press(k, io);
        PromptNext(start, keys, used);
        KeyIsSafe(before, Work(), start, keys, used);
        used := used + 1;
      }
    }

    /** The bytes a read puts at the front of the buffer. */
    method Store(bytes: seq<byte>)
      requires Valid() && |bytes| < BUF_MAX
      modifies buf
      ensures Text() == Overlaid(old(Text()), bytes) && buf[..|bytes|] == bytes
    {
      var i := 0;
      while i < |bytes|
        invariant 0 <= i <= |bytes| && (forall k :: 0 <= k < i ==> buf[k] == bytes[k])
        invariant forall k :: i <= k < BUF_MAX ==> buf[k] == old(buf[k])
      {
        buf[i] := bytes[i];
        i := i + 1;
      }
    }

    /** What loading a file and starting a new text do to the state. */
    method Restart(n: int, name: seq<byte>)
      requires Valid() && 0 <= n < BUF_MAX && |name| < Directory.MAX_NAME
      modifies this`pos, this`len, this`dirty, this`top, this`offx, this`fname, this`clean
      ensures Valid() && top == offx == 0 && Aligned()
      ensures Work() == old(Work()).(doc := Doc(buf[..n], 0), dirty := false, name := name, clean := buf[..n])
    {
      len, pos, top, offx := n, 0, 0, 0;
      dirty, fname := false, name;
      clean := buf[..n];
    }

    /** load_into: the file's bytes and a window at the top; a read that fails leaves the state, but not always the buffer. */
    method LoadInto(name: seq<byte>, read: FileRead) returns (n: int)
      requires Valid() && |name| < Directory.MAX_NAME && IoOk(Io(read, false))
      modifies this`pos, this`len, this`dirty, this`top, this`offx, this`fname, this`clean, buf
      ensures Valid() && Work() == Opened(old(Work()), name, read)
      ensures n == (if read.Bytes? then |read.bytes| else -1)
      ensures if read.Bytes? then top == offx == 0 else top == old(top) && offx == old(offx)
    {
      if read.NoFile? {
        return -1;
      }
      if read.Broken? {
        Store(read.stored);
        return -1;
      }
      Store(read.bytes);
      n := |read.bytes|;
      Restart(n, name);
    }

    /** startup with the name that was asked for, if any. */
    method Startup(name: seq<byte>, read: FileRead)
      requires Valid() && |name| < Directory.MAX_NAME && IoOk(Io(read, false)) && Text() == [] && top == offx == 0
      modifies this, buf
      ensures Valid() && Shown() && Aligned() && cmdMode == old(cmdMode) && quit == old(quit) && buf == old(buf) && cmd == old(cmd)
      ensures Work() == if name == [] then old(Work()) else Opened(old(Work()), name, read).(name := name)
    {
      if name == [] {
        return;
      }
      var n := LoadInto(name, read);
      if n < 0 {
        fname := name;
      }
    }

    /** save_file; `writes` is whether the file system took the text. */
    method SaveFile(name: seq<byte>, writes: bool) returns (ok: bool)
      requires Valid()
      modifies this`dirty, this`fname, this`clean, this`stored
      ensures Valid() && Work() == Saved(old(Work()), name, writes) && ok == SaveWorks(name, writes)
    {
      if name == [] || |name| >= Directory.MAX_NAME || !writes {
        return false;
      }
      fname, dirty := name, false;
      clean, stored := Text(), stored[name := Text()];
      ok := true;
    }

    /** The command line without the spaces around it; the spaces behind it are cut off in place. */
    method TrimCommand() returns (c: seq<byte>)
      requires Valid()
      modifies cmd
      ensures c == DropSpaces(SkipSpaces(old(cmd[..cmdLen])))
    {
      hide SkipSpaces, DropSpaces;
      ghost var line := cmd[..cmdLen];
      var from := 0;
      while from < cmdLen && cmd[from] == SPACE
        invariant 0 <= from <= cmdLen && SkipSpaces(line[from..]) == SkipSpaces(line)
        modifies {}
      {
        SkipStep(line, from);
        from := from + 1;
      }
      SkipDone(line, from);
      var end := cmdLen;
      assert line[from..end] == line[from..];
      while end > from && cmd[end - 1] == SPACE
        invariant from <= end <= cmdLen && cmd[..end] == line[..end]
        invariant DropSpaces(line[from..end]) == DropSpaces(line[from..])
        modifies cmd
      {
        DropStep(line, from, end);
        end := end - 1;
        cmd[end] := 0;
      }
      DropDone(line, from, end);
      c := cmd[from..end];
      assert c == cmd[..end][from..] == line[..end][from..];
    }

    /** run_command. */
    method RunCommand(io: Io)
      requires Valid() && IoOk(io) && top <= len + 1
      modifies this, buf, cmd
      ensures Valid() && buf == old(buf) && cmd == old(cmd) && cmdMode == old(cmdMode)
      ensures Work() == Ran(old(Work()), Parse(DropSpaces(SkipSpaces(old(cmd[..cmdLen])))), io)
      ensures top <= len + 1 && (old(Aligned()) && !io.read.Broken? ==> Aligned())
      ensures quit && !old(quit) ==> Document() == old(Document()) && top == old(top) && offx == old(offx)
    {
      hide Ran, Saved, Opened, SaveWorks, SkipSpaces, DropSpaces;
      var c := TrimCommand();
      if c == [] || c == [Q] || c == [Q, BANG] || c == [N] {
        PlainCommand(c, io);
      } else if c == [W] || c == [W, Q] {
        SaveCommand(c, io);
      } else if |c| > 1 && c[0] == E && c[1] == SPACE {
        OpenCommand(c, io);
      } else if |c| > 1 && c[0] == W && c[1] == SPACE {
        SaveAsCommand(c, io);
      } else {
        UnknownRuns(Work(), io);
      }
    }

    /** Quitting and starting a new text. */
    method PlainCommand(c: seq<byte>, io: Io)
      requires Valid() && top <= len + 1 && Parse(c) in {Nothing, Quit(false), Quit(true), New}
      modifies this`quit, this`len, this`pos, this`top, this`offx, this`dirty, this`fname, this`clean
      ensures Valid() && Work() == Ran(old(Work()), Parse(c), io)
      ensures top <= len + 1 && (old(Aligned()) ==> Aligned())
      ensures quit && !old(quit) ==> Document() == old(Document()) && top == old(top) && offx == old(offx)
    {
      hide Saved, Opened, SaveWorks, SkipSpaces;
      if c == [] {
      } else if c == [Q] {
        quit := quit || !dirty;
      } else if c == [Q, BANG] {
        quit := true;
      } else if !dirty {
        Restart(0, []);
      }
    }

    /** w and wq. */
    method SaveCommand(c: seq<byte>, io: Io)
      requires Valid() && Parse(c).Save?
      modifies this`quit, this`dirty, this`fname, this`clean, this`stored
      ensures Valid() && Work() == Ran(old(Work()), Parse(c), io)
    {
      hide Saved, SaveWorks, SkipSpaces;
      var ok := SaveFile(fname, io.writes);
      if c == [W, Q] && ok {
        quit := true;
      }
    }

    method SaveAsCommand(c: seq<byte>, io: Io)
      requires Valid() && |c| > 1 && Parse(c).SaveAs?
      modifies this`dirty, this`fname, this`clean, this`stored
      ensures Valid() && Work() == Ran(old(Work()), Parse(c), io)
    {
      hide Saved, SaveWorks, SkipSpaces;
      var name := Argument(c);
      var _ := SaveFile(name, io.writes);
    }

    /** Changed text is not given up for another file. */
    method OpenCommand(c: seq<byte>, io: Io)
      requires Valid() && |c| > 1 && Parse(c).Open? && IoOk(io) && top <= len + 1
      modifies this`pos, this`len, this`dirty, this`top, this`offx, this`fname, this`clean, buf
      ensures Valid() && Work() == Ran(old(Work()), Parse(c), io)
      ensures top <= len + 1 && (old(Aligned()) && !io.read.Broken? ==> Aligned())
    {
      hide Saved, SaveWorks, SkipSpaces;
      var name := Argument(c);
      if !dirty && |name| < Directory.MAX_NAME {
        var _ := LoadInto(name, io.read);
      }
    }

    /** What follows the letter and the spaces. */
    static method Argument(c: seq<byte>) returns (name: seq<byte>)
      requires |c| > 1
      ensures name == SkipSpaces(c[1..])
    {
      var i := 1;
      while i < |c| && c[i] == SPACE
        invariant 1 <= i <= |c| && SkipSpaces(c[i..]) == SkipSpaces(c[1..])
      {
        i := i + 1;
      }
      name := c[i..];
    }

    /** cmd_key. */
    method CmdKey(k: int, io: Io)
      requires Valid() && IoOk(io) && cmdMode && top <= len + 1
      modifies this, buf, cmd
      ensures Valid() && buf == old(buf) && cmd == old(cmd)
      ensures Work() == Ran(old(Work()), CommandAt(old(Prompt()), k), io) && Prompt() == NextPrompt(old(Prompt()), k)
      ensures top <= len + 1 && (old(Aligned()) && !io.read.Broken? ==> Aligned())
      ensures quit && !old(quit) ==> Document() == old(Document()) && top == old(top) && offx == old(offx)
    {
      hide Ran, Parse;
      ghost var line := cmd[..cmdLen];
      NothingRuns(Work(), io);
      if k == KEY_ESC {
        cmdMode := false;
      } else if k == KEY_ENTER {
        cmdMode := false;
        RunCommand(io);
      } else if k == KEY_BACKSPACE {
        if cmdLen > 0 {
          cmdLen := cmdLen - 1;
          cmd[cmdLen] := 0;
          assert cmd[..cmdLen] == line[..|line| - 1];
        } else {
          cmdMode := false;
        }
      } else if 32 <= k <= 126 && cmdLen < CMD_MAX {
        cmd[cmdLen] := k;
        cmdLen := cmdLen + 1;
        cmd[cmdLen] := 0;
        assert cmd[..cmdLen] == line + [k];
      }
    }

    /** edit_key: the keys that edit or move, and the one that opens the command line; the others change nothing. */
    method EditKey(k: int)
      requires Valid() && Shown() && !cmdMode
      modifies this`pos, this`len, this`dirty, this`cmdMode, this`cmdLen, buf, cmd
      ensures Valid() && Edited(old(Work()), Work(), k) && TopStands(old(Document()), Document(), top)
      ensures Prompt() == NextPrompt(old(Prompt()), k)
    {
      hide Typed, Erased, RowShown, ColumnShown, MovedTo, TopStands, TextLines.LineBegin, TextLines.LineEnd, Column;
      ghost var before := Document();
      TopOfShown(before, top);
      if k == KEY_ESC {
        cmdMode, cmdLen := true, 0;
        cmd[0] := 0;
        assert cmd[..cmdLen] == [];
        SameTextKeepsTop(before, before, top);
      } else if k == KEY_LEFT || k == KEY_RIGHT || k == KEY_UP || k == KEY_DOWN {
        MoveKey(k);
        SameTextKeepsTop(before, Document(), top);
      } else {
        TextKey(k);
      }
    }

    /** The keys of edit_key that change the text. */
    method TextKey(k: int)
      requires Valid() && top <= pos && k !in [KEY_ESC, KEY_LEFT, KEY_RIGHT, KEY_UP, KEY_DOWN]
      modifies this`pos, this`len, this`dirty, buf
      ensures Valid() && KeyDone(old(Document()), Document(), k) && TopStands(old(Document()), Document(), top)
      ensures dirty == (old(dirty) || len != old(len))
    {
      hide Typed, Erased, MovedTo, TopStands, TextLines.LineBegin, TextLines.LineEnd, Column;
      ghost var before := Document();
      if k == KEY_BACKSPACE {
        ErasingKeepsTop(before, top);
        DoBackspace();
      } else if k == KEY_TAB {
        var c := ColOf(pos);
        TypingKeepsTop(before, 32, TAB_W - c % TAB_W, top);
        DoInsert(32, TAB_W - c % TAB_W);
      } else if k == KEY_ENTER {
        TypingKeepsTop(before, NEWLINE, 1, top);
        DoInsert(NEWLINE, 1);
      } else if 32 <= k <= 126 {
        TypingKeepsTop(before, k, 1, top);
        DoInsert(k, 1);
      } else {
        SameTextKeepsTop(before, before, top);
      }
    }

    /** scroll_fix: the smallest move of the window that shows the cursor again. */
    method ScrollFix()
      requires Valid() && top <= len + 1
      modifies this`top, this`offx
      ensures Valid() && Shown()
      ensures LineStart(Text(), old(top)) || TextLines.LineBegin(Text(), pos) < old(top) ==> Aligned()
      ensures var lb := TextLines.LineBegin(Text(), pos);
              if lb < old(top) then top == lb
              else if Newlines(Text(), old(top), lb) <= TEXT_ROWS - 1 then top == old(top)
              else Newlines(Text(), top, lb) == TEXT_ROWS - 1
      ensures var c := Column(Text(), pos);
              offx == if c < old(offx) then c else if c >= old(offx) + COLS then c - (COLS - 1) else old(offx)
    {
      hide TextLines.LineBegin, TextLines.LineEnd, Newlines, ColumnFrom, Column;
      ghost var t := Text();
      var lb := LineBegin(pos);
      while lb < top
        invariant 0 <= top <= |t| + 1 && (top == old(top) || LineStart(t, top))
        invariant if old(top) > lb then lb <= top else top == old(top)
        modifies this`top
      {
        var above := if top > 0 then top - 1 else 0;
        LineBeginIsLast(t, lb, above);
        top := LineBegin(above);
      }
      if lb == top {
        NoLines(t, lb);
      }
      LowerTop(lb);
      var c := ColOf(pos);
      if c < offx {
        offx := c;
      } else if c >= offx + COLS {
        offx := c - (COLS - 1);
      }
      offx := if offx < 0 then 0 else offx;
    }

    /** The start of the line `TEXT_ROWS - 1` lines below the top one, or past the end when there are fewer. */
    method LastShown() returns (last: int)
      requires Valid() && top <= len
      ensures top <= last <= len + 1
      ensures if last == len + 1 then Newlines(Text(), top, len) < TEXT_ROWS - 1
              else LineStart(Text(), last) && Newlines(Text(), top, last) == TEXT_ROWS - 1
    {
      hide TextLines.LineEnd, Newlines;
      ghost var t := Text();
      last := top;
      NoLines(t, top);
      var i := 0;
      while i < TEXT_ROWS - 1 && last <= len
        invariant 0 <= i <= TEXT_ROWS - 1 && top <= last <= len + 1
        invariant if last == len + 1 then Newlines(t, top, len) < TEXT_ROWS - 1
                  else (if i == 0 then last == top else LineStart(t, last)) && Newlines(t, top, last) == i
        decreases TEXT_ROWS - i
      {
        var e := LineEnd(last);
        if e >= len {
          NewlinesSplit(t, top, last, len);
          NoNewlines(t, last, len);
          last := len + 1;
        } else {
          NextLine(t, last);
          NewlinesSplit(t, top, last, e + 1);
          last := e + 1;
        }
        i := i + 1;
      }
    }

    /** One line at a time until the cursor's line is shown. */
    method LowerTop(lb: int)
      requires Valid() && 0 <= lb <= len && LineStart(Text(), lb) && top <= lb
      modifies this`top
      ensures Valid() && top <= lb && (top == old(top) || LineStart(Text(), top))
      ensures if Newlines(Text(), old(top), lb) <= TEXT_ROWS - 1 then top == old(top)
              else Newlines(Text(), top, lb) == TEXT_ROWS - 1
    {
      hide TextLines.LineEnd, Newlines;
      ghost var t := Text();
      var last := LastShown();
      OnScreen(t, top, lb, last);
      while lb > last
        invariant 0 <= top <= lb && (top == old(top) || LineStart(t, top)) && top <= last <= len + 1
        invariant lb <= last <==> Newlines(t, top, lb) <= TEXT_ROWS - 1
        invariant top == old(top) || (Newlines(t, old(top), lb) > TEXT_ROWS - 1 && Newlines(t, top, lb) >= TEXT_ROWS - 1)
        modifies this`top
        decreases lb - top
      {
        var e := LineEnd(top);
        OneDown(t, top, lb);
        top := e + 1;
        last := LastShown();
        OnScreen(t, top, lb, last);
      }
    }

    /** The four arrows. */
    method MoveKey(k: int)
      requires Valid() && k in [KEY_LEFT, KEY_RIGHT, KEY_UP, KEY_DOWN]
      modifies this`pos
      ensures Valid() && KeyDone(old(Document()), Document(), k)
    {
      hide TextLines.LineBegin, TextLines.LineEnd, MovedTo, Typed, Erased, Column;
      if k == KEY_LEFT {
        if pos > 0 {
          pos := pos - 1;
        }
      } else if k == KEY_RIGHT {
        if pos < len {
          pos := pos + 1;
        }
      } else {
        MoveLine(k);
      }
    }

    /** One line up or down, as near to the column as that line allows. */
    method MoveLine(k: int)
      requires Valid() && k in [KEY_UP, KEY_DOWN]
      modifies this`pos
      ensures Valid() && KeyDone(old(Document()), Document(), k)
    {
      hide TextLines.LineBegin, TextLines.LineEnd, MovedTo, Typed, Erased, Column;
      if k == KEY_UP {
        var lb := LineBegin(pos);
        if lb > 0 {
          var start := LineBegin(lb - 1);
          MoveTo(start);
        }
      } else {
        var e := LineEnd(pos);
        if e < len {
          MoveTo(e + 1);
        }
      }
    }

    method MoveTo(start: int)
      requires Valid() && 0 <= start <= len
      modifies this`pos
      ensures Valid() && MovedTo(old(Document()), Document(), start)
    {
      hide TextLines.LineBegin, TextLines.LineEnd, ColumnFrom, Column, LastAtOrBefore;
      var c := ColOf(pos);
      pos := PosForCol(start, c);
    }
  }

  lemma TopOfShown(d: Doc, top: int)
    requires DocOk(d) && RowShown(d.text, top, d.pos)
    ensures 0 <= top <= d.pos
  {
  }

  lemma NoLines(t: seq<byte>, p: nat)
    requires p <= |t|
    ensures Newlines(t, p, p) == 0
  {
  }

  /** The test `lb <= last` says whether the cursor's line is among the rows shown. */
  lemma OnScreen(t: seq<byte>, top: nat, lb: nat, last: nat)
    requires top <= lb <= |t| && LineStart(t, lb) && top <= last <= |t| + 1
    requires if last == |t| + 1 then Newlines(t, top, |t|) < TEXT_ROWS - 1
             else LineStart(t, last) && Newlines(t, top, last) == TEXT_ROWS - 1
    ensures lb <= last <==> Newlines(t, top, lb) <= TEXT_ROWS - 1
  {
    hide Newlines;
    if last == |t| + 1 {
      NewlinesSplit(t, top, lb, |t|);
    } else if lb <= last {
      NewlinesSplit(t, top, lb, last);
    } else {
      NewlinesSplit(t, top, last, lb);
      LinesApart(t, last, lb);
    }
  }

  /** Going one line down leaves one newline less to the cursor's line. */
  lemma OneDown(t: seq<byte>, top: nat, lb: nat)
    requires top < lb <= |t| && LineStart(t, lb)
    ensures LineEnd(t, top) < lb && LineStart(t, LineEnd(t, top) + 1)
    ensures Newlines(t, top, lb) == 1 + Newlines(t, LineEnd(t, top) + 1, lb)
  {
    hide Newlines;
    assert t[lb - 1] == NEWLINE;
    NextLine(t, top);
    NewlinesSplit(t, top, LineEnd(t, top) + 1, lb);
  }

  lemma NoKeys(p: Prompt, keys: seq<(int, Io)>)
    ensures keys[..0] == [] && PromptAfter(p, keys[..0]) == p
  {
  }

  lemma SkipStep(line: seq<byte>, from: nat)
    requires from < |line| && line[from] == SPACE
    ensures SkipSpaces(line[from + 1..]) == SkipSpaces(line[from..])
  {
    assert line[from..][1..] == line[from + 1..];
  }

  lemma SkipDone(line: seq<byte>, from: nat)
    requires from <= |line| && (from < |line| ==> line[from] != SPACE)
    ensures SkipSpaces(line[from..]) == line[from..]
  {
  }

  lemma DropStep(line: seq<byte>, from: nat, end: nat)
    requires from < end <= |line| && line[end - 1] == SPACE
    ensures DropSpaces(line[from..end - 1]) == DropSpaces(line[from..end])
  {
    assert line[from..end][..end - from - 1] == line[from..end - 1];
  }

  lemma DropDone(line: seq<byte>, from: nat, end: nat)
    requires from <= end <= |line| && (from < end ==> line[end - 1] != SPACE)
    ensures DropSpaces(line[from..end]) == line[from..end] == line[..end][from..]
  {
  }

  lemma NothingRuns(w: Work, io: Io)
    ensures Ran(w, Nothing, io) == w
  {
  }

  lemma UnknownRuns(w: Work, io: Io)
    ensures Ran(w, Unknown, io) == w
  {
  }

  lemma InsertedIs(t: seq<byte>, after: seq<byte>, p: nat, c: byte, n: nat)
    requires p <= |t| && |after| == |t| + n
    requires forall k :: 0 <= k < p ==> after[k] == t[k]
    requires forall k :: p <= k < p + n ==> after[k] == c
    requires forall k :: p + n <= k < |after| ==> after[k] == t[k - n]
    ensures after == t[..p] + seq(n, i => c) + t[p..]
  {
  }
}
