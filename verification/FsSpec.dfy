/** What fs_write and fs_append mean on the map of files, and which states an interrupted call can leave. */
module FsSpec {
  import opened Bytes
  import opened AtaDisk
  import opened Directory

  const SLASH: byte := 47
  const NEWLINE: byte := 10
  const DIR_BUF_SIZE := 2048

  /** Index of the last '/', or -1. */
  function LastSlash(s: seq<byte>): (i: int)
    ensures -1 <= i < |s|
    ensures i >= 0 ==> s[i] == SLASH
    ensures forall k :: i < k < |s| ==> s[k] != SLASH
  {
    if s == [] then -1
    else if s[|s| - 1] == SLASH then |s| - 1
    else LastSlash(s[..|s| - 1])
  }

  predicate HasSlash(s: seq<byte>) {
    SLASH in s
  }

  /** Everything before the last '/'; empty when there is none. */
  function Parent(path: seq<byte>): (dir: seq<byte>)
    ensures path != [] ==> |dir| < |path|
    ensures dir <= path
  {
    if LastSlash(path) < 0 then [] else path[..LastSlash(path)]
  }

  /** `dir` is one of the directories named on the way to `path`. */
  predicate Ancestor(dir: seq<byte>, path: seq<byte>) {
    dir != [] && dir + [SLASH] <= path
  }

  /** The ancestors are exactly what repeated `Parent` visits. */
  lemma AncestorByParent(dir: seq<byte>, path: seq<byte>)
    ensures Ancestor(dir, path) <==> Parent(path) != [] && (dir == Parent(path) || Ancestor(dir, Parent(path)))
  {
    var cut := LastSlash(path);
    if Ancestor(dir, path) {
      assert (dir + [SLASH])[|dir|] == path[|dir|];
      assert |dir| <= cut;
      assert dir == path[..|dir|];
      if |dir| < cut {
        assert dir + [SLASH] == path[..|dir| + 1] == path[..cut][..|dir| + 1];
      }
    }
    if Parent(path) != [] && dir == Parent(path) {
      assert dir + [SLASH] == path[..cut + 1];
    }
  }

  // ---------------------------------------------------------------- a completed write

  predicate Accepts(m: Files, name: seq<byte>) {
    |name| < MAX_NAME && (Parent(name) == [] || Parent(name) in m)
  }

  /** fs_append goes ahead: the directory exists and its list still fits the 2 KB buffer. */
  predicate Appendable(m: Files, dir: seq<byte>, path: seq<byte>) {
    dir in m && |m[dir].bytes| < DIR_BUF_SIZE && |m[dir].bytes| + |path| + 1 < DIR_BUF_SIZE
  }

  function WithLine(m: Files, dir: seq<byte>, path: seq<byte>): seq<byte>
    requires dir in m
  {
    m[dir].bytes + path + [NEWLINE]
  }

  /** The write of `name` happened, and its path was added to an unbroken run of its ancestors
      starting at the parent; a refused append stops the run and is not reported. */
  ghost predicate Wrote(m: Files, m': Files, name: seq<byte>, kind: byte, data: seq<byte>)
    decreases |name|, 0
  {
    var mid := m[name := File(kind, data)];
    var dir := Parent(name);
    m' == mid || (dir != [] && AppendWrote(mid, m', dir, name))
  }

  ghost predicate AppendWrote(m: Files, m': Files, dir: seq<byte>, path: seq<byte>)
    requires dir != []
    decreases |dir|, 1
  {
    Appendable(m, dir, path) && Accepts(m, dir) && Wrote(m, m', dir, FS_DIR, WithLine(m, dir, path))
  }

  /** The write with every append that is possible carried out. */
  ghost function WriteAll(m: Files, name: seq<byte>, kind: byte, data: seq<byte>): Files
    decreases |name|, 0
  {
    var mid := m[name := File(kind, data)];
    var dir := Parent(name);
    if dir == [] then mid else AppendAll(mid, dir, name)
  }

  ghost function AppendAll(m: Files, dir: seq<byte>, path: seq<byte>): Files
    requires dir != []
    decreases |dir|, 1
  {
    if Appendable(m, dir, path) && Accepts(m, dir) then WriteAll(m, dir, FS_DIR, WithLine(m, dir, path)) else m
  }

  lemma {:induction false} WriteAllIsWrote(m: Files, name: seq<byte>, kind: byte, data: seq<byte>)
    ensures Wrote(m, WriteAll(m, name, kind, data), name, kind, data)
    decreases |name|, 0
  {
    var mid := m[name := File(kind, data)];
    var dir := Parent(name);
    if dir != [] && Appendable(mid, dir, name) && Accepts(mid, dir) {
      WriteAllIsWrote(mid, dir, FS_DIR, WithLine(mid, dir, name));
    }
  }

  /** `m` and `m'` agree on everything about `n`. */
  predicate SameAt(m: Files, m': Files, n: seq<byte>) {
    (n in m <==> n in m') && (n in m ==> m'[n] == m[n])
  }

  /** A write stores what it was given, touches only the target and its ancestors,
      and leaves every ancestor either alone or a directory with its old list as a prefix. */
  lemma {:induction false} WroteEffect(m: Files, m': Files, name: seq<byte>, kind: byte, data: seq<byte>, n: seq<byte>)
    requires Wrote(m, m', name, kind, data) && name != []
    ensures name in m' && m'[name] == File(kind, data)
    ensures n != name && !Ancestor(n, name) ==> SameAt(m, m', n)
    ensures n in m && Ancestor(n, name) ==>
              n in m' && (m'[n] == m[n] || (m'[n].kind == FS_DIR && m[n].bytes < m'[n].bytes))
    decreases |name|, 0
  {
    var mid := m[name := File(kind, data)];
    var dir := Parent(name);
    AncestorByParent(n, name);
    if m' != mid {
      var more := WithLine(mid, dir, name);
      WroteEffect(mid, m', dir, FS_DIR, more, n);
      WroteEffect(mid, m', dir, FS_DIR, more, name);
      assert |more| > |mid[dir].bytes| && more[..|mid[dir].bytes|] == mid[dir].bytes;
    }
  }

  // ---------------------------------------------------------------- an interrupted write

  /** An in-place rewrite stopped after `n` of its sectors: old entry, partly new bytes. */
  ghost predicate TornWrite(m: Files, m': Files, name: seq<byte>, data: seq<byte>) {
    && InPlace(m, name, data)
    && exists n :: 0 <= n <= SectorsOf(|data|) &&
         m' == m[name := File(m[name].kind, Torn(m[name].bytes, data, n))]
  }

  /** The new contents fit the sectors the file already has. */
  predicate InPlace(m: Files, name: seq<byte>, data: seq<byte>) {
    name in m && SectorsOf(|data|) <= SectorsOf(|m[name].bytes|)
  }

  /** Before its directory update a write has not happened: nothing changed, or an in-place target is torn. */
  ghost predicate Interrupted(m: Files, m': Files, name: seq<byte>, data: seq<byte>) {
    m' == m || (name != [] && TornWrite(m, m', name, data))
  }

  /** The target's own write is complete; an empty name stores nothing. */
  predicate Stored(m: Files, m': Files, name: seq<byte>, kind: byte, data: seq<byte>) {
    m' == if name == [] then m else m[name := File(kind, data)]
  }

  /** What a reported error leaves: an interrupted write, or the write itself without its parent's update, because the
      device may store the directory sector and still report an error. */
  ghost predicate Failed(m: Files, m': Files, name: seq<byte>, kind: byte, data: seq<byte>) {
    Interrupted(m, m', name, data) || (name != [] && m' == m[name := File(kind, data)])
  }

  /** Every state a power cut or a failed transfer during fs_write can leave. */
  ghost predicate Reachable(m: Files, m': Files, name: seq<byte>, kind: byte, data: seq<byte>) {
    Interrupted(m, m', name, data) || (name != [] && Wrote(m, m', name, kind, data))
  }

  /** Rewriting a file with more of the same is never visible before the directory update. */
  lemma TornExtensionInvisible(before: seq<byte>, data: seq<byte>, n: nat)
    requires before <= data
    ensures Torn(before, data, n) == before
  {
  }

  /** An append to a directory is atomic even when it rewrites the directory in place. */
  lemma AppendNeverTears(m: Files, m': Files, dir: seq<byte>, path: seq<byte>)
    requires dir != [] && dir in m && Reachable(m, m', dir, FS_DIR, WithLine(m, dir, path))
    ensures m' == m || Wrote(m, m', dir, FS_DIR, WithLine(m, dir, path))
    ensures Interrupted(m, m', dir, WithLine(m, dir, path)) ==> m' == m
  {
    var data := WithLine(m, dir, path);
    if TornWrite(m, m', dir, data) {
      var n :| 0 <= n <= SectorsOf(|data|) && m' == m[dir := File(m[dir].kind, Torn(m[dir].bytes, data, n))];
      assert m[dir].bytes <= data by {
        assert data == m[dir].bytes + (path + [NEWLINE]);
      }
      TornExtensionInvisible(m[dir].bytes, data, n);
      assert m' == m;
    }
  }

  /** Crash atomicity of the allocating path: old or new, nothing in between. */
  lemma AllocatingWriteIsAtomic(m: Files, m': Files, name: seq<byte>, kind: byte, data: seq<byte>)
    requires Reachable(m, m', name, kind, data) && !HasSlash(name) && !InPlace(m, name, data)
    ensures m' == m || m' == m[name := File(kind, data)]
  {
  }

  /** A rewrite in place that is not refused is atomic, whatever the files and the data, exactly when nothing is written, or
      one sector is and neither size nor type changes: every state left behind is the old files or a completed write. */
  lemma InPlaceAtomicIff(name: seq<byte>, oldKind: byte, before: nat, kind: byte, after: nat)
    requires 0 < |name| < MAX_NAME && Roundable(before) && Roundable(after) && SectorsOf(after) <= SectorsOf(before)
    ensures (forall m: Files, data: seq<byte>, m': Files |
               Rewrites(m, name, oldKind, before, data, after) && Reachable(m, m', name, kind, data) ::
               m' == m || Wrote(m, m', name, kind, data))
            <==> after == 0 || (SectorsOf(after) == 1 && before == after && oldKind == kind)
  {
    if after == 0 || (SectorsOf(after) == 1 && before == after && oldKind == kind) {
      forall m: Files, data: seq<byte>, m': Files |
          Rewrites(m, name, oldKind, before, data, after) && Reachable(m, m', name, kind, data)
        ensures m' == m || Wrote(m, m', name, kind, data)
      {
        SafeRewrite(m, m', name, kind, data);
      }
    } else {
      TearsSomewhere(name, oldKind, before, kind, after);
    }
  }

  /** The write is accepted, the file has this type and size, and so much data is to replace it. */
  predicate Rewrites(m: Files, name: seq<byte>, oldKind: byte, before: nat, data: seq<byte>, after: nat) {
    Accepts(m, name) && name in m && m[name].kind == oldKind && |m[name].bytes| == before && |data| == after
  }

  lemma SafeRewrite(m: Files, m': Files, name: seq<byte>, kind: byte, data: seq<byte>)
    requires name in m && Reachable(m, m', name, kind, data) && Roundable(|data|)
    requires data == [] || (SectorsOf(|data|) == 1 && |m[name].bytes| == |data| && m[name].kind == kind)
    ensures m' == m || Wrote(m, m', name, kind, data)
  {
    if TornWrite(m, m', name, data) {
      var n :| 0 <= n <= SectorsOf(|data|) && m' == m[name := File(m[name].kind, Torn(m[name].bytes, data, n))];
      if n == 0 {
        assert Torn(m[name].bytes, data, n) == m[name].bytes;
        assert m' == m;
      } else {
        assert Torn(m[name].bytes, data, n) == data;
        assert m' == m[name := File(kind, data)];
      }
    }
  }

  /** A volume with this one file and its empty parent directory, and data whose first sector alone makes a file that is neither
      the old nor the new one. */
  lemma TearsSomewhere(name: seq<byte>, oldKind: byte, before: nat, kind: byte, after: nat)
    requires 0 < |name| < MAX_NAME && Roundable(before) && Roundable(after) && SectorsOf(after) <= SectorsOf(before)
    requires after > 0 && !(SectorsOf(after) == 1 && before == after && oldKind == kind)
    ensures exists m: Files, data: seq<byte>, m': Files ::
              Rewrites(m, name, oldKind, before, data, after) && Reachable(m, m', name, kind, data)
              && m' != m && !Wrote(m, m', name, kind, data)
  {
    var ones: seq<byte>, twos: seq<byte> := seq(before, _ => 1), seq(after, _ => 2);
    var parent: Files := if Parent(name) == [] then map[] else map[Parent(name) := File(FS_DIR, [])];
    var m: Files := parent[name := File(oldKind, ones)];
    var torn := Torn(ones, twos, 1);
    var m' := m[name := File(oldKind, torn)];
    assert torn[0] == 2 && ones[0] == 1;
    if before == after && SectorsOf(after) > 1 {
      assert torn[512] == 1 && twos[512] == 2;
    }
    assert TornWrite(m, m', name, twos);
    assert m'[name] != m[name] && m'[name] != File(kind, twos);
    assert !Wrote(m, m', name, kind, twos) by {
      if Wrote(m, m', name, kind, twos) {
        WroteEffect(m, m', name, kind, twos, name);
      }
    }
    assert Rewrites(m, name, oldKind, before, twos, after) && Reachable(m, m', name, kind, twos);
    assert m' != m;
  }

  // ---------------------------------------------------------------- the two phases of one write on the disk

  /** The directory slot fs_write uses: the name's own, else the first free one, else none (-1). */
  function SlotFor(slots: seq<Entry>, name: seq<byte>): int {
    if Find(slots, name) >= 0 then Find(slots, name) else FirstFree(slots)
  }

  /** Where fs_write puts the sectors of `data`: over the old ones if they suffice, else at the end. */
  function Target(slots: seq<Entry>, g: Geometry, name: seq<byte>, data: seq<byte>): nat {
    var k := Find(slots, name);
    if k >= 0 && SectorsOf(|data|) <= SectorsOf(slots[k].size) then slots[k].lba else HighestEnd(slots, g.dataLba)
  }

  /** The extent chosen by fs_write is in the data area and clear of every other live extent. */
  lemma TargetClear(slots: seq<Entry>, g: Geometry, capacity: nat, name: seq<byte>, data: seq<byte>, j: nat)
    requires DirOk(slots, g, capacity) && j < |slots| && Live(slots[j]) && j != Find(slots, name)
    ensures var lba := Target(slots, g, name, data);
            End(slots[j]) <= lba || lba + SectorsOf(|data|) <= slots[j].lba
  {
    var k := Find(slots, name);
    if k >= 0 && SectorsOf(|data|) <= SectorsOf(slots[k].size) {
      assert Separate(slots[j], slots[k]);
    }
  }

  lemma TargetBounds(slots: seq<Entry>, g: Geometry, capacity: nat, name: seq<byte>, data: seq<byte>)
    requires DirOk(slots, g, capacity) && g.dataLba <= capacity
    ensures g.dataLba <= Target(slots, g, name, data) <= capacity
  {
  }

  /** Writing part of the target extent disturbs no other file. */
  lemma DataPhaseKeepsExtents(a: Image, slots: seq<Entry>, g: Geometry, name: seq<byte>, data: seq<byte>, n: nat)
    requires DirOk(slots, g, |a|) && n <= SectorsOf(|data|) && Target(slots, g, name, data) + n <= |a|
    ensures SameExtents(a, WithExtent(a, Target(slots, g, name, data), data, n), slots, Find(slots, name))
  {
    var lba := Target(slots, g, name, data);
    var b := WithExtent(a, lba, data, n);
    forall j, s | 0 <= j < |slots| && j != Find(slots, name) && 0 <= s < |a| && Live(slots[j]) && Covers(slots[j], s)
      ensures a[s] == b[s]
    {
      TargetClear(slots, g, |a|, name, data, j);
    }
  }

  /** While data sectors are being written the files are the old ones except that an in-place
      target is torn. */
  lemma DataPhaseFiles(a: Image, slots: seq<Entry>, g: Geometry, name: seq<byte>, data: seq<byte>, n: nat)
    requires DirOk(slots, g, |a|) && n <= SectorsOf(|data|) && Target(slots, g, name, data) + n <= |a|
    ensures Interrupted(FilesIn(a, slots, g), FilesIn(WithExtent(a, Target(slots, g, name, data), data, n), slots, g), name, data)
  {
    var lba := Target(slots, g, name, data);
    var b := WithExtent(a, lba, data, n);
    var m, k := FilesIn(a, slots, g), Find(slots, name);
    if k >= 0 && SectorsOf(|data|) <= SectorsOf(slots[k].size) {
      var e := slots[k];
      DataPhaseKeepsExtents(a, slots, g, name, data, n);
      ExtentTorn(a, lba, e.size, data, n);
      assert slots[k := e] == slots;
      assert forall j :: 0 <= j < |slots| && j != k ==> Separate(slots[j], slots[k]);
      SlotReplaced(a, b, slots, g, k, e);
      assert FilesIn(b, slots, g) == m[name := File(m[name].kind, Torn(m[name].bytes, data, n))];
    } else {
      AllocatedDataPhase(a, slots, g, name, data, n);
      SameFiles(a, b, slots, g);
    }
  }

  lemma DataPhase(a: Image, g: Geometry, name: seq<byte>, data: seq<byte>, n: nat)
    requires ImageOk(a, g) && n <= SectorsOf(|data|) && Target(Slots(a, g), g, name, data) + n <= |a|
    ensures var b := WithExtent(a, Target(Slots(a, g), g, name, data), data, n);
            ImageOk(b, g) && Slots(b, g) == Slots(a, g) &&
            Interrupted(FilesOf(a, g), FilesOf(b, g), name, data)
  {
    var slots := Slots(a, g);
    var b := WithExtent(a, Target(slots, g, name, data), data, n);
    TargetBounds(slots, g, |a|, name, data);
    assert a[..g.dataLba] == b[..g.dataLba];
    SlotsSame(a, b, g);
    DataPhaseFiles(a, slots, g, name, data, n);
  }

  /** Past the end of all live data nothing is disturbed, not even the target's old bytes. */
  lemma AllocatedDataPhase(a: Image, slots: seq<Entry>, g: Geometry, name: seq<byte>, data: seq<byte>, n: nat)
    requires DirOk(slots, g, |a|) && n <= SectorsOf(|data|) && Target(slots, g, name, data) + n <= |a|
    requires Find(slots, name) < 0 || SectorsOf(|data|) > SectorsOf(slots[Find(slots, name)].size)
    ensures SameExtents(a, WithExtent(a, Target(slots, g, name, data), data, n), slots, -1)
  {
    var b := WithExtent(a, Target(slots, g, name, data), data, n);
    forall j, s | 0 <= j < |slots| && 0 <= s < |a| && Live(slots[j]) && Covers(slots[j], s)
      ensures a[s] == b[s]
    {
      assert End(slots[j]) <= HighestEnd(slots, g.dataLba);
    }
  }

  /** The image `c` reached from `a` by writing all of `data` and then slot `k` of the directory. */
  lemma EntryPhaseExtents(a: Image, c: Image, slots: seq<Entry>, g: Geometry, k: nat, e: Entry, data: seq<byte>)
    requires |c| == |a| && k < |slots| && DirOk(slots, g, |a|) && g.dataLba <= |a|
    requires e.lba == Target(slots, g, e.name, data) && e.lba + SectorsOf(|data|) <= |a|
    requires forall s :: g.dataLba <= s < |a| ==> c[s] == WithExtent(a, e.lba, data, SectorsOf(|data|))[s]
    requires k == Find(slots, e.name) || (Find(slots, e.name) < 0 && !Live(slots[k]))
    ensures SameExtents(a, c, slots, k)
    ensures Roundable(|data|) ==> BytesAt(c, e.lba, |data|) == data
  {
    var b := WithExtent(a, e.lba, data, SectorsOf(|data|));
    DataPhaseKeepsExtents(a, slots, g, e.name, data, SectorsOf(|data|));
    forall j, s | 0 <= j < |slots| && j != k && 0 <= s < |a| && Live(slots[j]) && Covers(slots[j], s)
      ensures a[s] == c[s]
    {
      assert j != Find(slots, e.name);
      assert b[s] == c[s];
    }
    if Roundable(|data|) {
      ExtentReadsBack(a, e.lba, data);
      TargetBounds(slots, g, |a|, e.name, data);
      BytesAtSame(b, c, e.lba, |data|);
    }
  }

  /** Once the directory sector with the new entry is written, the file is the new one. */
  lemma EntryPhase(a: Image, c: Image, slots: seq<Entry>, g: Geometry, k: nat, e: Entry, data: seq<byte>)
    requires |c| == |a| && k < |slots| && DirOk(slots, g, |a|) && g.dataLba <= |a|
    requires Roundable(|data|) && |e.name| < MAX_NAME && e.size == |data|
    requires e.lba == Target(slots, g, e.name, data) && e.lba + SectorsOf(|data|) <= |a|
    requires forall s :: g.dataLba <= s < |a| ==> c[s] == WithExtent(a, e.lba, data, SectorsOf(|data|))[s]
    requires k == Find(slots, e.name) || (Find(slots, e.name) < 0 && !Live(slots[k]))
    ensures DirOk(slots[k := e], g, |c|)
    ensures FilesIn(c, slots[k := e], g) ==
            if e.name == [] then FilesIn(a, slots, g) else FilesIn(a, slots, g)[e.name := File(e.kind, data)]
  {
    EntryPhaseExtents(a, c, slots, g, k, e, data);
    TargetBounds(slots, g, |a|, e.name, data);
    if e.name == [] {
      FreeSlotReplaced(a, c, slots, g, k, e);
    } else {
      forall j | 0 <= j < |slots| && j != k && Live(slots[j])
        ensures Apart(slots[j], e)
      {
        assert j != Find(slots, e.name);
        TargetClear(slots, g, |a|, e.name, data, j);
      }
      SlotReplaced(a, c, slots, g, k, e);
    }
  }

  /** The directory after a write of `name`: one slot replaced, pointing at the chosen extent. */
  predicate Placed(before: seq<Entry>, after: seq<Entry>, g: Geometry, name: seq<byte>, kind: byte, data: seq<byte>) {
    && 0 <= SlotFor(before, name) && Target(before, g, name, data) < TWO32 && |data| < TWO32
    && after == before[SlotFor(before, name) := Entry(name, kind, Target(before, g, name, data), |data|)]
  }

  lemma EntryPhaseImage(a: Image, b: Image, c: Image, slots: seq<Entry>, g: Geometry, k: nat, e: Entry, data: seq<byte>)
    requires ImageOk(a, g) && slots == Slots(a, g) && |c| == |a| && k == SlotFor(slots, e.name)
    requires Roundable(|data|) && |e.name| < MAX_NAME && e.size == |data|
    requires e.lba == Target(slots, g, e.name, data) && e.lba + SectorsOf(|data|) <= |a|
    requires b == WithExtent(a, e.lba, data, SectorsOf(|data|)) && b[g.dataLba..] == c[g.dataLba..]
    requires Slots(c, g) == slots[k := e]
    ensures ImageOk(c, g)
    ensures FilesOf(c, g) == if e.name == [] then FilesOf(a, g) else FilesOf(a, g)[e.name := File(e.kind, data)]
  {
    forall s | g.dataLba <= s < |a|
      ensures c[s] == b[s]
    {
      assert c[s] == c[g.dataLba..][s - g.dataLba];
    }
    EntryPhase(a, c, slots, g, k, e, data);
  }

  lemma WriteIsReachable(m: Files, name: seq<byte>, kind: byte, data: seq<byte>)
    requires name != []
    ensures Reachable(m, m[name := File(kind, data)], name, kind, data)
  {
  }

  lemma DataRecorded(history: seq<Image>, first: nat, a: Image, g: Geometry, name: seq<byte>, kind: byte, data: seq<byte>)
    requires ImageOk(a, g) && first <= |history| && |history| - first <= SectorsOf(|data|)
    requires Target(Slots(a, g), g, name, data) + (|history| - first) <= |a|
    requires forall h :: first <= h < |history| ==>
               history[h] == WithExtent(a, Target(Slots(a, g), g, name, data), data, h + 1 - first)
    ensures Recorded(history, first, g, FilesOf(a, g), name, kind, data)
  {
    hide FilesOf, Slots, Target, DirOk, WithExtent, TornWrite, Wrote;
    forall h | first <= h < |history|
      ensures ImageOk(history[h], g) && Reachable(FilesOf(a, g), FilesOf(history[h], g), name, kind, data)
    {
      DataPhase(a, g, name, data, h + 1 - first);
    }
  }

  /** Every image recorded from position `from` on has a sound directory and a permitted set of files. */
  ghost predicate Recorded(history: seq<Image>, from: nat, g: Geometry, m: Files, name: seq<byte>, kind: byte, data: seq<byte>) {
    forall h :: from <= h < |history| ==>
      ImageOk(history[h], g) && Reachable(m, FilesOf(history[h], g), name, kind, data)
  }

  /** The same for an append: each recorded state is before it or a completed part of it. */
  ghost predicate RecordedAppend(history: seq<Image>, from: nat, g: Geometry, m: Files, dir: seq<byte>, path: seq<byte>)
    requires dir != []
  {
    forall h :: from <= h < |history| ==>
      ImageOk(history[h], g) && (FilesOf(history[h], g) == m || AppendWrote(m, FilesOf(history[h], g), dir, path))
  }

  // ---------------------------------------------------------------- gluing the recursion together

  lemma NoSlashNoParent(name: seq<byte>)
    requires !HasSlash(name)
    ensures Parent(name) == []
  {
  }

  lemma WroteStart(m: Files, name: seq<byte>, kind: byte, data: seq<byte>)
    ensures Wrote(m, m[name := File(kind, data)], name, kind, data)
    ensures Parent(name) == [] ==> WriteAll(m, name, kind, data) == m[name := File(kind, data)]
    ensures Parent(name) != [] ==>
              WriteAll(m, name, kind, data) == AppendAll(m[name := File(kind, data)], Parent(name), name)
  {
  }

  lemma WroteMore(m: Files, m': Files, name: seq<byte>, kind: byte, data: seq<byte>)
    requires Parent(name) != []
    requires var mid := m[name := File(kind, data)]; m' == mid || AppendWrote(mid, m', Parent(name), name)
    ensures Wrote(m, m', name, kind, data)
  {
  }

  /** The states of the target's write followed by those of the parent's append. */
  lemma RecordedJoin(past: seq<Image>, history: seq<Image>, first: nat, g: Geometry,
                     m: Files, name: seq<byte>, kind: byte, data: seq<byte>)
    requires name != [] && Parent(name) != [] && first <= |past| && past <= history
    requires Recorded(past, first, g, m, name, kind, data)
    requires RecordedAppend(history, |past|, g, m[name := File(kind, data)], Parent(name), name)
    ensures Recorded(history, first, g, m, name, kind, data)
  {
    hide ImageOk, FilesOf, Interrupted, AppendWrote, Wrote;
    forall h | first <= h < |history|
      ensures ImageOk(history[h], g) && Reachable(m, FilesOf(history[h], g), name, kind, data)
    {
      if h < |past| {
        assert history[h] == past[h];
      } else {
        WroteMore(m, FilesOf(history[h], g), name, kind, data);
      }
    }
  }

  lemma NothingDone(m: Files, name: seq<byte>, kind: byte, data: seq<byte>)
    ensures Failed(m, m, name, kind, data)
  {
  }

  lemma FailedIsReachable(m: Files, m': Files, name: seq<byte>, kind: byte, data: seq<byte>)
    requires Failed(m, m', name, kind, data)
    ensures Reachable(m, m', name, kind, data)
  {
    hide TornWrite;
  }

  /** What fs_append makes of the result of the fs_write it ends with. */
  lemma AppendSettles(m: Files, m': Files, dir: seq<byte>, path: seq<byte>, rc: int)
    requires dir != [] && Appendable(m, dir, path)
    requires if rc == 0 then Wrote(m, m', dir, FS_DIR, WithLine(m, dir, path))
             else Failed(m, m', dir, FS_DIR, WithLine(m, dir, path))
    ensures rc != 0 ==> m' == m || m' == m[dir := File(FS_DIR, WithLine(m, dir, path))]
    ensures Accepts(m, dir) ==> m' == m || AppendWrote(m, m', dir, path)
    ensures rc == 0 && Accepts(m, dir) ==> AppendWrote(m, m', dir, path)
  {
    if rc != 0 {
      FailedIsReachable(m, m', dir, FS_DIR, WithLine(m, dir, path));
      AppendNeverTears(m, m', dir, path);
      WroteStart(m, dir, FS_DIR, WithLine(m, dir, path));
    }
  }

  lemma AppendRecorded(history: seq<Image>, first: nat, g: Geometry, m: Files, dir: seq<byte>, path: seq<byte>)
    requires dir != [] && Appendable(m, dir, path) && first <= |history| && (Accepts(m, dir) || first == |history|)
    requires Recorded(history, first, g, m, dir, FS_DIR, WithLine(m, dir, path))
    ensures RecordedAppend(history, first, g, m, dir, path)
  {
    hide ImageOk, FilesOf, TornWrite, Wrote;
    forall h | first <= h < |history|
      ensures ImageOk(history[h], g) && (FilesOf(history[h], g) == m || AppendWrote(m, FilesOf(history[h], g), dir, path))
    {
      AppendNeverTears(m, FilesOf(history[h], g), dir, path);
    }
  }

  /** Every directory entry apart from those of `name` and its ancestors is the same record. */
  ghost predicate EntriesKept(before: seq<Entry>, after: seq<Entry>, name: seq<byte>) {
    forall n :: n != name && !Ancestor(n, name) ==> KeepsEntry(before, after, n)
  }

  /** Every directory entry apart from that of `name` is the same record. */
  ghost predicate OthersKept(before: seq<Entry>, after: seq<Entry>, name: seq<byte>) {
    forall n :: n != name ==> KeepsEntry(before, after, n)
  }

  lemma OthersKeptAreEntries(before: seq<Entry>, after: seq<Entry>, name: seq<byte>)
    requires OthersKept(before, after, name)
    ensures EntriesKept(before, after, name)
  {
    hide KeepsEntry, Ancestor;
  }

  lemma EntriesKeptSame(slots: seq<Entry>, name: seq<byte>)
    ensures EntriesKept(slots, slots, name)
  {
  }

  lemma EntriesKeptThroughParent(before: seq<Entry>, mid: seq<Entry>, after: seq<Entry>, name: seq<byte>)
    requires Parent(name) != []
    requires OthersKept(before, mid, name) && EntriesKept(mid, after, Parent(name))
    ensures EntriesKept(before, after, name)
  {
    hide Ancestor;
    forall n | n != name && !Ancestor(n, name)
      ensures KeepsEntry(before, after, n)
    {
      AncestorByParent(n, name);
      assert n != Parent(name) && !Ancestor(n, Parent(name));
      assert KeepsEntry(before, mid, n) && KeepsEntry(mid, after, n);
    }
  }

  /** Whatever a write leaves, completed or not, names off the path keep their file. */
  lemma ReachableElsewhere(m: Files, m': Files, name: seq<byte>, kind: byte, data: seq<byte>, n: seq<byte>)
    requires Reachable(m, m', name, kind, data) && n != name && !Ancestor(n, name)
    ensures SameAt(m, m', n)
  {
    if !Interrupted(m, m', name, data) {
      WroteEffect(m, m', name, kind, data, n);
    }
  }

  // ---------------------------------------------------------------- space

  /** A write over sectors the file has raises the end of the data for no file; any other write raises it by what the data takes. */
  lemma PlacedSpace(before: seq<Entry>, after: seq<Entry>, g: Geometry, name: seq<byte>, kind: byte, data: seq<byte>)
    requires Placed(before, after, g, name, kind, data) && name != []
    ensures var k, old', new' := Find(before, name), HighestEnd(before, g.dataLba), HighestEnd(after, g.dataLba);
            if k >= 0 && SectorsOf(|data|) <= SectorsOf(before[k].size) then new' <= old' && after[k].lba == before[k].lba
            else new' == old' + SectorsOf(|data|)
  {
    hide SectorsOf;
    var k, j := Find(before, name), SlotFor(before, name);
    var top := HighestEnd(before, g.dataLba);
    assert forall i :: 0 <= i < |after| && i != j ==> after[i] == before[i];
    assert Live(after[j]);
  }
}
