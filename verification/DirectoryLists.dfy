/** Which lines fs_write leaves in the lists of the directories above a file. */
module DirectoryLists {
  import opened Bytes
  import opened Directory
  import opened FsSpec

  /** `q` is `path` or a directory on the way to it. */
  predicate OnPath(q: seq<byte>, path: seq<byte>) {
    q == path || Ancestor(q, path)
  }

  /** The list of `q`'s parent takes one more line `q`: the parent exists, its list and the line fit 2048 bytes with one to spare,
      and the parent can itself be rewritten. */
  predicate HasRoom(m: Files, q: seq<byte>) {
    var p := Parent(q);
    && p != [] && p in m && |m[p].bytes| + |q| + 1 < 2048
    && |p| < MAX_NAME && (Parent(p) == [] || Parent(p) in m)
  }

  /** The appends get as far as the parent of `q`. */
  ghost predicate RoomUpTo(m: Files, q: seq<byte>, path: seq<byte>) {
    forall r :: OnPath(r, path) && |q| <= |r| ==> HasRoom(m, r)
  }

  /** A directory on the way is the parent of the next one on the way. */
  lemma {:induction false} NextOnPath(dir: seq<byte>, path: seq<byte>) returns (q: seq<byte>)
    requires Ancestor(dir, path)
    ensures OnPath(q, path) && Parent(q) == dir
    decreases |path|
  {
    AncestorByParent(dir, path);
    if dir == Parent(path) {
      q := path;
    } else {
      q := NextOnPath(dir, Parent(path));
      AncestorByParent(q, path);
    }
  }

  lemma OnPathByParent(q: seq<byte>, path: seq<byte>)
    requires path != []
    ensures OnPath(q, path) <==> q == path || (Parent(path) != [] && OnPath(q, Parent(path)))
    ensures OnPath(q, path) ==> |q| <= |path| && (q != path ==> |q| < |path|)
  {
    AncestorByParent(q, path);
  }

  /** What a write of a path does to what the appends see on the way: nothing. */
  lemma RoomKept(m: Files, mid: Files, path: seq<byte>, f: File, r: seq<byte>)
    requires mid == m[path := f] && |r| < |path|
    ensures HasRoom(mid, r) <==> HasRoom(m, r)
    ensures Parent(r) != [] ==> SameAt(m, mid, Parent(r))
  {
  }

  lemma ParentIsShorter(q: seq<byte>)
    requires Parent(q) != []
    ensures |Parent(q)| < |q| && |Parent(Parent(q))| < |q| && Parent(q) != q
  {
  }

  lemma RoomAbove(m: Files, mid: Files, q: seq<byte>, path: seq<byte>, f: File)
    requires mid == m[path := f] && Parent(path) != [] && OnPath(q, Parent(path))
    ensures RoomUpTo(m, q, path) <==> HasRoom(m, path) && RoomUpTo(mid, q, Parent(path))
  {
    hide HasRoom, OnPath;
    OnPathByParent(q, path);
    forall r
      ensures OnPath(r, path) <==> r == path || OnPath(r, Parent(path))
      ensures OnPath(r, Parent(path)) ==> (HasRoom(mid, r) <==> HasRoom(m, r))
    {
      OnPathByParent(r, path);
      OnPathByParent(r, Parent(path));
      ParentIsShorter(path);
      if OnPath(r, Parent(path)) {
        RoomKept(m, mid, path, f, r);
      }
    }
  }

  /** fs_write adds the line of every path on the way to the list of its parent, from the target upwards until a list is full:
      the parent's list becomes the old list, the path and a newline. Beyond that point the lists stay. */
  lemma {:induction false} EveryListGrows(m: Files, name: seq<byte>, kind: byte, data: seq<byte>, q: seq<byte>)
    requires OnPath(q, name) && Parent(q) != []
    ensures var p, m' := Parent(q), WriteAll(m, name, kind, data);
            if p in m && RoomUpTo(m, q, name) then p in m' && m'[p] == File(FS_DIR, m[p].bytes + q + [10]) else SameAt(m, m', p)
    decreases |name|
  {
    var f := File(kind, data);
    var mid, dir, p := m[name := f], Parent(name), Parent(q);
    hide WriteAll, Wrote;
    WriteAllOneStep(m, name, kind, data);
    OnPathByParent(q, name);
    ParentIsShorter(q);
    if q == name {
      RoomForTarget(m, name);
      RoomKept(m, mid, name, f, p);
    } else {
      RoomAbove(m, mid, q, name, f);
      ParentIsShorter(name);
      OnPathByParent(q, dir);
      RoomKept(m, mid, name, f, q);
      if HasRoom(m, name) {
        EveryListGrows(mid, dir, FS_DIR, mid[dir].bytes + name + [10], q);
      }
    }
  }

  lemma RoomForTarget(m: Files, name: seq<byte>)
    requires Parent(name) != []
    ensures RoomUpTo(m, name, name) <==> HasRoom(m, name)
  {
    hide HasRoom, Ancestor;
    forall r
      ensures OnPath(r, name) && |name| <= |r| <==> r == name
    {
      OnPathByParent(r, name);
    }
    assert OnPath(name, name);
  }

  /** The parent's list ends in the name of the file just written, when there is room. */
  lemma ParentListed(m: Files, name: seq<byte>, kind: byte, data: seq<byte>)
    requires HasRoom(m, name)
    ensures var p, m' := Parent(name), WriteAll(m, name, kind, data); p in m' && m'[p] == File(FS_DIR, m[p].bytes + name + [10])
  {
    RoomForTarget(m, name);
    EveryListGrows(m, name, kind, data, name);
  }

  lemma RoomHasParent(m: Files, name: seq<byte>)
    requires HasRoom(m, name)
    ensures name != [] && Parent(name) in m
  {
  }

  /** One step of fs_write and fs_append, spelled out. */
  lemma WriteAllOneStep(m: Files, name: seq<byte>, kind: byte, data: seq<byte>)
    requires name != []
    ensures var mid, dir, m' := m[name := File(kind, data)], Parent(name), WriteAll(m, name, kind, data);
            if HasRoom(m, name) then
              && dir in mid && m' == WriteAll(mid, dir, FS_DIR, mid[dir].bytes + name + [10])
              && dir in m' && m'[dir] == File(FS_DIR, m[dir].bytes + name + [10])
            else m' == mid
  {
    var mid, dir := m[name := File(kind, data)], Parent(name);
    if HasRoom(m, name) {
      ParentIsShorter(name);
      WriteAllIsWrote(mid, dir, FS_DIR, mid[dir].bytes + name + [10]);
      WroteEffect(mid, WriteAll(mid, dir, FS_DIR, mid[dir].bytes + name + [10]), dir, FS_DIR, mid[dir].bytes + name + [10], dir);
    }
  }

  /** With failing transfers, too, a list on the way is the old one or the old one with exactly this line. */
  lemma {:induction false} ListOrOneLine(m: Files, m': Files, name: seq<byte>, kind: byte, data: seq<byte>, q: seq<byte>)
    requires Wrote(m, m', name, kind, data) && OnPath(q, name) && Parent(q) != [] && Parent(q) in m
    ensures Parent(q) in m' && (m'[Parent(q)] == m[Parent(q)] || m'[Parent(q)] == File(FS_DIR, m[Parent(q)].bytes + q + [10]))
    decreases |name|
  {
    var mid, dir := m[name := File(kind, data)], Parent(name);
    OnPathByParent(q, name);
    ParentIsShorter(q);
    if m' != mid {
      var more := mid[dir].bytes + name + [10];
      WroteEffect(mid, m', dir, FS_DIR, more, dir);
      if q != name {
        OnPathByParent(q, dir);
        ListOrOneLine(mid, m', dir, FS_DIR, more, q);
      }
    }
  }

  // ---------------------------------------------------------------- the lines of a list

  /** The lines of a list, cut at its newlines; bytes after the last newline are no line. */
  function Lines(s: seq<byte>): (r: seq<seq<byte>>) {
    LinesFrom(s, [])
  }

  function LinesFrom(s: seq<byte>, line: seq<byte>): seq<seq<byte>> {
    if s == [] then []
    else if s[0] == 10 then [line] + LinesFrom(s[1..], [])
    else LinesFrom(s[1..], line + [s[0]])
  }

  /** Every byte belongs to a line. */
  predicate Ended(s: seq<byte>) {
    s == [] || s[|s| - 1] == 10
  }

  lemma {:induction false} LineAppended(s: seq<byte>, line: seq<byte>, name: seq<byte>)
    requires 10 !in name && (if s == [] then line == [] else Ended(s))
    ensures LinesFrom(s + name + [10], line) == LinesFrom(s, line) + [name]
  {
    if s == [] {
      assert s + name + [10] == name + [10] && [] + name == name;
      OneLine(name, []);
    } else {
      var rest := s[1..];
      assert (s + name + [10])[0] == s[0] && (s + name + [10])[1..] == rest + name + [10];
      if s[0] == 10 {
        LineAppended(rest, [], name);
        assert [line] + (LinesFrom(rest, []) + [name]) == [line] + LinesFrom(rest, []) + [name];
      } else {
        LineAppended(rest, line + [s[0]], name);
      }
    }
  }

  lemma {:induction false} OneLine(name: seq<byte>, line: seq<byte>)
    requires 10 !in name
    ensures LinesFrom(name + [10], line) == [line + name]
  {
    if name == [] {
      assert name + [10] == [10] && line + name == line;
      assert (name + [10])[1..] == [] && LinesFrom([], []) == [];
    } else {
      assert (name + [10])[1..] == name[1..] + [10];
      OneLine(name[1..], line + [name[0]]);
      assert (name + [10])[0] == name[0] && line + [name[0]] + name[1..] == line + name;
    }
  }

  // ---------------------------------------------------------------- runs of changes

  /** A write or a delete that returned 0 with every transfer carried out. */
  datatype Change = Write(name: seq<byte>, kind: byte, data: seq<byte>) | Delete(name: seq<byte>)

  ghost function Changed(m: Files, c: Change): Files {
    match c
    case Write(name, kind, data) => WriteAll(m, name, kind, data)
    case Delete(name) => m - {name}
  }

  ghost function RunAll(m: Files, run: seq<Change>): Files {
    if run == [] then m else Changed(RunAll(m, run[..|run| - 1]), run[|run| - 1])
  }

  /** The change leaves the directory itself to its list, and adds whole lines only. */
  predicate Spares(c: Change, dir: seq<byte>) {
    c.name != [] && c.name != dir && 10 !in c.name
  }

  lemma PrefixHasNoNewline(dir: seq<byte>, path: seq<byte>)
    requires OnPath(dir, path) && 10 !in path
    ensures 10 !in dir
  {
    assert dir <= path;
  }

  lemma OneChange(m: Files, c: Change, dir: seq<byte>)
    requires dir != [] && dir in m && Ended(m[dir].bytes) && Spares(c, dir)
    ensures var m' := Changed(m, c); dir in m' && Ended(m'[dir].bytes) && Lines(m[dir].bytes) <= Lines(m'[dir].bytes)
    ensures c.Write? && Parent(c.name) == dir && HasRoom(m, c.name) ==> c.name in Lines(Changed(m, c)[dir].bytes)
  {
    if c.Write? {
      if Ancestor(dir, c.name) {
        var q := NextOnPath(dir, c.name);
        EveryListGrows(m, c.name, c.kind, c.data, q);
        PrefixHasNoNewline(q, c.name);
        LineAppended(m[dir].bytes, [], q);
        if Parent(c.name) == dir {
          EveryListGrows(m, c.name, c.kind, c.data, c.name);
          LineAppended(m[dir].bytes, [], c.name);
          RoomForTarget(m, c.name);
        }
      } else {
        AncestorByParent(dir, c.name);
        WriteAllIsWrote(m, c.name, c.kind, c.data);
        WroteEffect(m, WriteAll(m, c.name, c.kind, c.data), c.name, c.kind, c.data, dir);
      }
    }
  }

  /** Over any run of writes and deletes that leaves the directory itself alone, its list keeps every line it had, and every file
      written into it while there was room is a line of it. */
  lemma {:induction false} RunKeepsLines(m: Files, run: seq<Change>, dir: seq<byte>)
    requires dir != [] && dir in m && Ended(m[dir].bytes) && forall k :: 0 <= k < |run| ==> Spares(run[k], dir)
    ensures var m' := RunAll(m, run); dir in m' && Ended(m'[dir].bytes) && Lines(m[dir].bytes) <= Lines(m'[dir].bytes)
    ensures forall k :: 0 <= k < |run| && run[k].Write? && Parent(run[k].name) == dir && HasRoom(RunAll(m, run[..k]), run[k].name) ==>
              run[k].name in Lines(RunAll(m, run)[dir].bytes)
  {
    hide WriteAll, Lines, HasRoom, Ended;
    if run != [] {
      var n := |run| - 1;
      var past, last := RunAll(m, run[..n]), run[n];
      RunKeepsLines(m, run[..n], dir);
      OneChange(past, last, dir);
      forall k | 0 <= k < |run| && run[k].Write? && Parent(run[k].name) == dir && HasRoom(RunAll(m, run[..k]), run[k].name)
        ensures run[k].name in Lines(RunAll(m, run)[dir].bytes)
      {
        if k < n {
          assert run[..n][..k] == run[..k] && run[..n][k] == run[k];
          assert run[k].name in Lines(past[dir].bytes);
        }
      }
    }
  }
}
