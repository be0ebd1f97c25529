/** Which bytes typed on the command line of src/home/edit.c store, load, start anew or quit. */
module EditorCommands {
  import opened Bytes
  import opened EditorSpec

  // ---------------------------------------------------------------- spaces around a command

  predicate AllSpaces(s: seq<byte>) {
    forall k :: 0 <= k < |s| ==> s[k] == 32
  }

  /** `t` stands in the line at `at`, with nothing but spaces before and behind it. */
  predicate StandsAt(line: seq<byte>, t: seq<byte>, at: nat) {
    at + |t| <= |line| && line[at..at + |t|] == t && AllSpaces(line[..at]) && AllSpaces(line[at + |t|..])
  }

  /** The line is `t` with spaces around it. */
  ghost predicate Says(line: seq<byte>, t: seq<byte>) {
    exists at :: 0 <= at && StandsAt(line, t, at)
  }

  /** No space at either end. */
  predicate Tight(t: seq<byte>) {
    t == [] || (t[0] != 32 && t[|t| - 1] != 32)
  }

  lemma {:induction false} SkipIs(s: seq<byte>)
    ensures var r := SkipSpaces(s); |r| <= |s| && r == s[|s| - |r|..] && AllSpaces(s[..|s| - |r|]) && (r == [] || r[0] != 32)
  {
    if s != [] && s[0] == SPACE {
      SkipIs(s[1..]);
      var r := SkipSpaces(s);
      assert forall k :: 1 <= k < |s| - |r| ==> s[k] == s[1..][..|s| - 1 - |r|][k - 1];
    }
  }

  lemma {:induction false} DropIs(s: seq<byte>)
    ensures var r := DropSpaces(s); |r| <= |s| && r == s[..|r|] && AllSpaces(s[|r|..]) && (r == [] || r[|r| - 1] != 32)
  {
    if s != [] && s[|s| - 1] == SPACE {
      var front := s[..|s| - 1];
      DropIs(front);
      var r := DropSpaces(s);
      assert forall k :: |r| <= k < |s| - 1 ==> s[k] == front[|r|..][k - |r|];
    }
  }

  /** What cutting off the outer spaces leaves. */
  function Trimmed(line: seq<byte>): seq<byte> {
    DropSpaces(SkipSpaces(line))
  }

  lemma TrimmedStands(line: seq<byte>)
    ensures Says(line, Trimmed(line)) && Tight(Trimmed(line))
  {
    hide SkipSpaces, DropSpaces;
    SkipIs(line);
    var s := SkipSpaces(line);
    DropIs(s);
    var t, at := Trimmed(line), |line| - |s|;
    assert line[at..at + |t|] == s[..|t|];
    assert line[at + |t|..] == s[|t|..];
    assert StandsAt(line, t, at);
    assert s != [] ==> s[|t|..] == [] || t == s[..|t|];
    assert forall k :: |t| <= k < |s| ==> s[k] == s[|t|..][k - |t|];
  }

  lemma StandsFacts(line: seq<byte>, t: seq<byte>, at: nat)
    requires StandsAt(line, t, at)
    ensures forall k :: 0 <= k < at || at + |t| <= k < |line| ==> line[k] == 32
    ensures forall k :: at <= k < at + |t| ==> line[k] == t[k - at]
  {
    assert forall k :: 0 <= k < at ==> line[..at][k] == line[k];
    assert forall k :: at + |t| <= k < |line| ==> line[at + |t|..][k - at - |t|] == line[k];
    assert forall k :: at <= k < at + |t| ==> line[at..at + |t|][k - at] == line[k];
  }

  /** A line says one thing only. */
  lemma SaysOnce(line: seq<byte>, t: seq<byte>, u: seq<byte>)
    requires Says(line, t) && Says(line, u) && Tight(t) && Tight(u)
    ensures t == u
  {
    hide StandsAt;
    var at :| 0 <= at && StandsAt(line, t, at);
    var bt :| 0 <= bt && StandsAt(line, u, bt);
    StandsFacts(line, t, at);
    StandsFacts(line, u, bt);
    StandsInside(line, t, at);
    StandsInside(line, u, bt);
    SameEnds(line, t, at, u, bt);
  }

  lemma StandsInside(line: seq<byte>, t: seq<byte>, at: nat)
    requires StandsAt(line, t, at)
    ensures at + |t| <= |line|
  {
  }

  lemma SameEnds(line: seq<byte>, t: seq<byte>, at: nat, u: seq<byte>, bt: nat)
    requires at + |t| <= |line| && bt + |u| <= |line| && Tight(t) && Tight(u)
    requires forall k :: 0 <= k < at || at + |t| <= k < |line| ==> line[k] == 32
    requires forall k :: at <= k < at + |t| ==> line[k] == t[k - at]
    requires forall k :: 0 <= k < bt || bt + |u| <= k < |line| ==> line[k] == 32
    requires forall k :: bt <= k < bt + |u| ==> line[k] == u[k - bt]
    ensures t == u
  {
    assert t != [] ==> line[at] != 32 && line[at + |t| - 1] != 32;
    assert u != [] ==> line[bt] != 32 && line[bt + |u| - 1] != 32;
    assert |t| == |u| && (t != [] ==> at == bt);
    assert forall i :: 0 <= i < |t| ==> t[i] == line[at + i] && u[i] == line[bt + i];
  }

  lemma SaysIff(line: seq<byte>, t: seq<byte>)
    requires Tight(t)
    ensures Says(line, t) <==> Trimmed(line) == t
  {
    hide Says, Trimmed;
    TrimmedStands(line);
    if Says(line, t) {
      SaysOnce(line, t, Trimmed(line));
    }
  }

  // ---------------------------------------------------------------- the commands as bytes

  /** The line is this letter, some spaces and a name, with spaces around it. */
  ghost predicate SaysName(line: seq<byte>, letter: byte, name: seq<byte>) {
    name != [] && Tight(name) && exists n: nat :: n >= 1 && Says(line, WithName(letter, n, name))
  }

  function WithName(letter: byte, n: nat, name: seq<byte>): (t: seq<byte>)
    ensures |t| == 1 + n + |name|
  {
    [letter] + seq(n, _ => 32) + name
  }

  /** A trimmed line with a letter and a space has a name behind the spaces. */
  lemma NameIs(t: seq<byte>, letter: byte, name: seq<byte>)
    requires Tight(t) && |t| > 1 && t[0] == letter && t[1] == 32
    ensures SkipSpaces(t[1..]) != [] && Tight(SkipSpaces(t[1..]))
    ensures SkipSpaces(t[1..]) == name ==> exists n: nat :: n >= 1 && t == WithName(letter, n, name)
  {
    hide SkipSpaces;
    var s := t[1..];
    SkipIs(s);
    var r := SkipSpaces(s);
    var n: nat := |s| - |r|;
    assert s[0] == t[1] && s[|s| - 1] == t[|t| - 1];
    assert s == s[..n] + r;
    assert forall k :: 0 <= k < n ==> s[k] == s[..n][k];
    assert s[..n] == seq(n, _ => 32);
    assert t == [letter] + s;
    assert t == WithName(letter, n, r);
  }

  lemma WithNameReads(letter: byte, n: nat, name: seq<byte>)
    requires n >= 1 && name != [] && Tight(name)
    ensures var t := WithName(letter, n, name); t[0] == letter && t[1] == 32 && SkipSpaces(t[1..]) == name
    ensures letter != 32 ==> Tight(WithName(letter, n, name))
  {
    hide SkipSpaces;
    var t := WithName(letter, n, name);
    var s := t[1..];
    SkipIs(s);
    var r := SkipSpaces(s);
    var m: nat := |s| - |r|;
    assert s == seq(n, _ => 32) + name && s[n] == name[0];
    assert forall k :: 0 <= k < m ==> s[k] == s[..m][k];
    assert r != [] ==> r[0] == s[m];
    assert m == n;
    assert r == name;
  }

  /** The name a line gives after a letter is the one that is read. */
  lemma SaysNameIff(line: seq<byte>, letter: byte, name: seq<byte>)
    requires letter != 32
    ensures SaysName(line, letter, name) <==>
              var t := Trimmed(line); |t| > 1 && t[0] == letter && t[1] == 32 && SkipSpaces(t[1..]) == name
  {
    hide SkipSpaces, Trimmed, Says;
    TrimmedStands(line);
    var t := Trimmed(line);
    if SaysName(line, letter, name) {
      var n: nat :| n >= 1 && Says(line, WithName(letter, n, name));
      WithNameReads(letter, n, name);
      SaysOnce(line, t, WithName(letter, n, name));
    }
    if |t| > 1 && t[0] == letter && t[1] == 32 && SkipSpaces(t[1..]) == name {
      NameIs(t, letter, name);
      var n: nat :| n >= 1 && t == WithName(letter, n, name);
      assert Says(line, WithName(letter, n, name));
    }
  }

  /** The commands, byte for byte: q, q!, w, wq and n are these letters alone, e and w with a name have spaces between. */
  lemma CommandBytes(line: seq<byte>, name: seq<byte>)
    ensures var c := CommandAt(Typing(line), 10);
            && (c == Quit(false) <==> Says(line, [113]))
            && (c == Quit(true) <==> Says(line, [113, 33]))
            && (c == Save(false) <==> Says(line, [119]))
            && (c == Save(true) <==> Says(line, [119, 113]))
            && (c == New <==> Says(line, [110]))
            && (c == Open(name) <==> SaysName(line, 101, name))
            && (c == SaveAs(name) <==> SaysName(line, 119, name))
  {
    hide SkipSpaces, DropSpaces, Says, SaysName;
    SaysIff(line, [113]);
    SaysIff(line, [113, 33]);
    SaysIff(line, [119]);
    SaysIff(line, [119, 113]);
    SaysIff(line, [110]);
    SaysNameIff(line, 101, name);
    SaysNameIff(line, 119, name);
  }

  // ---------------------------------------------------------------- what the enter key does, by the bytes typed

  /** The text of the work is stored under the name, and nothing else changed there. */
  predicate StoredAs(before: Work, after: Work, name: seq<byte>) {
    0 < |name| <= 22 && after.stored == before.stored[name := before.doc.text]
  }

  /** Only q, q! and wq end the editor: q not with changed text, wq after storing it, q! always. */
  lemma EnterQuits(before: Work, after: Work, line: seq<byte>, io: Io)
    requires DocOk(before.doc) && Pressed(before, after, Typing(line), 10, io)
    ensures Says(line, [113]) ==> after == if before.dirty then before else before.(quit := true)
    ensures Says(line, [113, 33]) ==> after == before.(quit := true)
    ensures Says(line, [119, 113]) ==> (after.quit <==> before.quit || (0 < |before.name| <= 22 && io.writes))
    ensures after.quit && !before.quit ==>
              || (Says(line, [113]) && !before.dirty) || Says(line, [113, 33])
              || (Says(line, [119, 113]) && StoredAs(before, after, before.name))
  {
    hide Says, SaysName, Parse, DropSpaces, SkipSpaces, CommandAt;
    CommandBytes(line, []);
  }

  /** Only w, wq and w with a name store the text, the first two under the name it has and the third under the name given. */
  lemma EnterStores(before: Work, after: Work, line: seq<byte>, io: Io, name: seq<byte>)
    requires DocOk(before.doc) && Pressed(before, after, Typing(line), 10, io)
    ensures (Says(line, [119]) || Says(line, [119, 113])) && 0 < |before.name| <= 22 && io.writes ==>
              StoredAs(before, after, before.name) && !after.dirty
    ensures SaysName(line, 119, name) && |name| <= 22 && io.writes ==>
              StoredAs(before, after, name) && !after.dirty && after.name == name
    ensures after.stored != before.stored ==>
              || ((Says(line, [119]) || Says(line, [119, 113])) && StoredAs(before, after, before.name))
              || exists other :: SaysName(line, 119, other) && StoredAs(before, after, other)
  {
    hide Says, Parse, DropSpaces, SkipSpaces, CommandAt;
    var c := CommandAt(Typing(line), 10);
    CommandBytes(line, name);
    if c.SaveAs? {
      CommandBytes(line, c.name);
    }
  }

  /** Only e with a name loads and only n starts anew, and neither gives up changed text. */
  lemma EnterLoads(before: Work, after: Work, line: seq<byte>, io: Io, file: seq<byte>)
    requires DocOk(before.doc) && Pressed(before, after, Typing(line), 10, io)
    ensures Says(line, [110]) && !before.dirty ==> after.doc == Doc([], 0) && after.name == []
    ensures SaysName(line, 101, file) && |file| <= 22 && !before.dirty && io.read.Bytes? ==>
              after.doc == Doc(io.read.bytes, 0) && after.name == file && !after.dirty
    ensures after.doc != before.doc ==> !before.dirty
    ensures after.doc != before.doc ==>
              Says(line, [110]) || (!io.read.NoFile? && exists other :: SaysName(line, 101, other) && |other| <= 22)
  {
    hide Says, SaysName, Parse, DropSpaces, SkipSpaces, CommandAt, Overlaid;
    var c := CommandAt(Typing(line), 10);
    CommandBytes(line, file);
    if c.Open? {
      CommandBytes(line, c.file);
    }
  }

  // ---------------------------------------------------------------- the line behind a run of keys

  /** The command line after the keys. */
  function PromptAfter(p: Prompt, keys: seq<(int, Io)>): Prompt {
    if keys == [] then p else NextPrompt(PromptAfter(p, keys[..|keys| - 1]), keys[|keys| - 1].0)
  }

  lemma PromptNext(p: Prompt, keys: seq<(int, Io)>, i: nat)
    requires i < |keys|
    ensures PromptAfter(p, keys[..i + 1]) == NextPrompt(PromptAfter(p, keys[..i]), keys[i].0)
  {
    assert keys[..i + 1][..i] == keys[..i];
  }

  /** Escape and up to fifty printable characters leave exactly these on the command line. */
  lemma {:induction false} TypedLine(keys: seq<(int, Io)>, chars: seq<byte>)
    requires |keys| == 1 + |chars| && keys[0].0 == 0x1B && |chars| <= 50
    requires forall k :: 0 <= k < |chars| ==> keys[1 + k].0 == chars[k] && 32 <= chars[k] <= 126
    ensures PromptAfter(Closed, keys) == Typing(chars)
  {
    var n := |chars|;
    if n == 0 {
      assert keys[..0] == [];
    } else {
      TypedLine(keys[..n], chars[..n - 1]);
      assert chars == chars[..n - 1] + [chars[n - 1]];
    }
  }

  /** Key `i` is enter, and the line typed so far says `t`. */
  ghost predicate Entered(p: Prompt, keys: seq<(int, Io)>, i: int, t: seq<byte>) {
    && 0 <= i < |keys| && keys[i].0 == 10 && PromptAfter(p, keys[..i]).Typing?
    && Says(PromptAfter(p, keys[..i]).line, t)
  }

  /** Key `i` is enter, and the line asks to store the text. */
  ghost predicate SaveEntered(p: Prompt, keys: seq<(int, Io)>, i: int) {
    || Entered(p, keys, i, [119]) || Entered(p, keys, i, [119, 113])
    || (0 <= i < |keys| && keys[i].0 == 10 && PromptAfter(p, keys[..i]).Typing?
        && exists name :: SaysName(PromptAfter(p, keys[..i]).line, 119, name))
  }

  /** One key: the mark stays honest, only q! quits with other text than the clean one, only the saving lines store. */
  lemma KeyIsSafe(before: Work, after: Work, p: Prompt, keys: seq<(int, Io)>, i: nat)
    requires i < |keys| && DocOk(before.doc) && !before.quit
    requires Pressed(before, after, PromptAfter(p, keys[..i]), keys[i].0, keys[i].1)
    ensures Honest(before) && !keys[i].1.read.Broken? ==>
              Honest(after) && (after.quit && after.doc.text != after.clean ==> Entered(p, keys, i, [113, 33]))
    ensures after.stored != before.stored ==> SaveEntered(p, keys, i)
    ensures after.quit ==> keys[i].0 == 10
  {
    hide Pressed, Says, SaysName, CommandAt, PromptAfter, Edited, Parse, Ran, DropSpaces, SkipSpaces;
    var prompt, k, io := PromptAfter(p, keys[..i]), keys[i].0, keys[i].1;
    if Honest(before) && !io.read.Broken? {
      PressedStaysHonest(before, after, prompt, k, io);
    }
    if prompt.Typing? && k == 10 {
      CommandBytes(prompt.line, []);
      EnterStores(before, after, prompt.line, io, []);
    } else {
      NotEntered(before, after, prompt, k, io);
    }
  }

  lemma NotEntered(before: Work, after: Work, p: Prompt, k: int, io: Io)
    requires DocOk(before.doc) && Pressed(before, after, p, k, io) && !(p.Typing? && k == 10)
    ensures after.quit == before.quit && after.stored == before.stored
  {
    hide KeyDone;
  }
}
