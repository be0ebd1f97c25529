/** The on-disk directory of fs.c as a value: slots, extents, and the files they denote. */
module Directory {
  import opened Bytes
  import opened AtaDisk

  const MAX_NAME := 23
  const PER_SECTOR := 16
  const ENTRY_SIZE := 32
  const FS_FILE: byte := 0
  const FS_DIR: byte := 1

  datatype Geometry = Geometry(dirLba: nat, dirSectors: nat, dataLba: nat)
  datatype Entry = Entry(name: seq<byte>, kind: byte, lba: u32, size: u32)
  datatype File = File(kind: byte, bytes: seq<byte>)

  type Files = map<seq<byte>, File>

  predicate Live(e: Entry) {
    e.name != []
  }

  /** (size + 511) / 512 in unsigned arithmetic. */
  function SectorsOf(size: nat): nat {
    (size + 511) % TWO32 / SECTOR_SIZE
  }

  predicate Roundable(size: nat) {
    size + 511 < TWO32
  }

  /** The rounding covers the bytes exactly when size + 511 does not wrap. */
  lemma SectorsCoverIffRoundable(size: u32)
    ensures Roundable(size) <==> size <= SectorsOf(size) * SECTOR_SIZE
    ensures Roundable(size) ==> SectorsOf(size) * SECTOR_SIZE < size + SECTOR_SIZE
  {
    if !Roundable(size) {
      assert (size + 511) % TWO32 == size + 511 - TWO32;
    }
  }

  lemma SectorStarts(size: nat, k: nat)
    requires Roundable(size) && k < SectorsOf(size)
    ensures SECTOR_SIZE * k < size
  {
  }

  function End(e: Entry): nat {
    e.lba + SectorsOf(e.size)
  }

  // ---------------------------------------------------------------- one directory sector

  /** struct file_entry read from its 32 bytes. */
  function Decode(s: seq<byte>): Entry
    requires |s| == ENTRY_SIZE
  {
    Entry(CString(s[..MAX_NAME]), s[MAX_NAME], ReadLe32(s, 24), ReadLe32(s, 28))
  }

  function Encode(e: Entry): (s: seq<byte>)
    requires |e.name| < MAX_NAME
    ensures |s| == ENTRY_SIZE
  {
    e.name + seq(MAX_NAME - |e.name|, _ => 0) + [e.kind] + Le32(e.lba) + Le32(e.size)
  }

  lemma DecodeEncode(e: Entry)
    requires |e.name| < MAX_NAME && IsCString(e.name)
    ensures Decode(Encode(e)) == e
  {
    var s := Encode(e);
    var name := e.name + seq(MAX_NAME - |e.name|, _ => 0);
    DecodeParts(s, name, e.kind, e.lba, e.size);
    CStringUnique(name, e.name);
  }

  lemma DecodeParts(s: seq<byte>, name: seq<byte>, kind: byte, lba: u32, size: u32)
    requires |name| == MAX_NAME && s == name + [kind] + Le32(lba) + Le32(size)
    ensures |s| == ENTRY_SIZE && Decode(s) == Entry(CString(name), kind, lba, size)
  {
    hide Le32, ReadLe32, CString;
    var front := name + [kind];
    SliceMiddle(front, Le32(lba), Le32(size));
    SliceMiddle(front + Le32(lba), Le32(size), []);
    assert (front + Le32(lba)) + Le32(size) + [] == s;
    assert s[..MAX_NAME] == name;
    ReadLe32OfLe32(s, 24, lba);
    ReadLe32OfLe32(s, 28, size);
  }

  lemma SliceMiddle(a: seq<byte>, b: seq<byte>, c: seq<byte>)
    ensures (a + b + c)[|a|..|a| + |b|] == b
  {
  }

  function SlotBytes(sec: Sector, i: nat): (s: seq<byte>)
    requires i < PER_SECTOR
    ensures |s| == ENTRY_SIZE
  {
    sec[ENTRY_SIZE * i..ENTRY_SIZE * i + ENTRY_SIZE]
  }

  function DecodeEntry(sec: Sector, i: nat): Entry
    requires i < PER_SECTOR
  {
    Decode(SlotBytes(sec, i))
  }

  /** A sector with the 32 bytes of slot `i` replaced. */
  function PutSlot(sec: Sector, i: nat, bytes: seq<byte>): Sector
    requires i < PER_SECTOR && |bytes| == ENTRY_SIZE
  {
    sec[..ENTRY_SIZE * i] + bytes + sec[ENTRY_SIZE * i + ENTRY_SIZE..]
  }

  lemma SlotBytesPut(sec: Sector, i: nat, bytes: seq<byte>, j: nat)
    requires i < PER_SECTOR && j < PER_SECTOR && |bytes| == ENTRY_SIZE
    ensures SlotBytes(PutSlot(sec, i, bytes), j) == if i == j then bytes else SlotBytes(sec, j)
  {
  }

  /** Storing an entry changes what its own slot decodes to, and no other slot. */
  lemma DecodePutEntry(sec: Sector, i: nat, e: Entry, j: nat)
    requires i < PER_SECTOR && j < PER_SECTOR && |e.name| < MAX_NAME && IsCString(e.name)
    ensures DecodeEntry(PutSlot(sec, i, Encode(e)), j) == if i == j then e else DecodeEntry(sec, j)
  {
    SlotBytesPut(sec, i, Encode(e), j);
    DecodeEncode(e);
  }

  /** Zeroing the first name byte frees the slot and leaves the others alone. */
  lemma DecodeCleared(sec: Sector, i: nat, j: nat)
    requires i < PER_SECTOR && j < PER_SECTOR
    ensures var cleared: Sector := sec[ENTRY_SIZE * i := 0];
            if i == j then !Live(DecodeEntry(cleared, j)) else DecodeEntry(cleared, j) == DecodeEntry(sec, j)
  {
    var cleared: Sector := sec[ENTRY_SIZE * i := 0];
    if i == j {
      assert SlotBytes(cleared, j)[..MAX_NAME][0] == 0;
    } else {
      assert SlotBytes(cleared, j) == SlotBytes(sec, j);
    }
  }

  // ---------------------------------------------------------------- the whole directory

  predicate Fits(g: Geometry, image: Image) {
    g.dirLba + g.dirSectors <= g.dataLba <= |image| < LBA_LIMIT
  }

  function SlotAt(image: Image, g: Geometry, k: nat): Entry
    requires Fits(g, image) && k < g.dirSectors * PER_SECTOR
  {
    DecodeEntry(image[g.dirLba + k / PER_SECTOR], k % PER_SECTOR)
  }

  function Slots(image: Image, g: Geometry): (slots: seq<Entry>)
    requires Fits(g, image)
    ensures |slots| == g.dirSectors * PER_SECTOR
  {
    seq(g.dirSectors * PER_SECTOR, k requires 0 <= k < g.dirSectors * PER_SECTOR => SlotAt(image, g, k))
  }

  /** Entry `i` of directory sector `d`, as a scan reads it, is slot `16 d + i`. */
  lemma SlotRead(image: Image, g: Geometry, d: nat, i: nat)
    requires Fits(g, image) && d < g.dirSectors && i < PER_SECTOR
    ensures DecodeEntry(image[g.dirLba + d], i) == Slots(image, g)[d * PER_SECTOR + i]
  {
    assert (d * PER_SECTOR + i) / PER_SECTOR == d && (d * PER_SECTOR + i) % PER_SECTOR == i;
  }

  /** Directory sector `d` holds slots `16 d` to `16 d + 15`. */
  lemma SectorHolds(image: Image, g: Geometry, d: nat, sec: Sector)
    requires Fits(g, image) && d < g.dirSectors && sec == image[g.dirLba + d]
    ensures forall j :: 0 <= j < PER_SECTOR ==> DecodeEntry(sec, j) == Slots(image, g)[d * PER_SECTOR + j]
  {
    forall j | 0 <= j < PER_SECTOR
      ensures DecodeEntry(sec, j) == Slots(image, g)[d * PER_SECTOR + j]
    {
      SlotRead(image, g, d, j);
    }
  }

  predicate Named(e: Entry, name: seq<byte>) {
    Live(e) && e.name == name
  }

  /** None of the first `n` slots is a live entry called `name`. */
  ghost predicate NotAmong(slots: seq<Entry>, n: int, name: seq<byte>)
    requires 0 <= n <= |slots|
  {
    forall k :: 0 <= k < n ==> !Named(slots[k], name)
  }

  /** The slot a directory scan stops at: the first live one with this name, or -1. */
  function Find(slots: seq<Entry>, name: seq<byte>): (k: int)
    ensures -1 <= k < |slots|
    ensures k >= 0 ==> Named(slots[k], name) && NotAmong(slots, k, name)
    ensures k < 0 ==> NotAmong(slots, |slots|, name)
  {
    if slots == [] then -1
    else
      var k := Find(slots[..|slots| - 1], name);
      if k >= 0 then k
      else if Named(slots[|slots| - 1], name) then |slots| - 1
      else -1
  }

  /** One more directory sector without the name, or the name's slot. */
  lemma SectorScanned(image: Image, g: Geometry, d: nat, sec: Sector, i: nat, name: seq<byte>)
    requires Fits(g, image) && d < g.dirSectors && i <= PER_SECTOR && sec == image[g.dirLba + d]
    requires NotAmong(Slots(image, g), d * PER_SECTOR, name)
    requires forall j :: 0 <= j < i ==> !Named(DecodeEntry(sec, j), name)
    requires i < PER_SECTOR ==> Named(DecodeEntry(sec, i), name)
    ensures NotAmong(Slots(image, g), d * PER_SECTOR + i, name)
    ensures i < PER_SECTOR ==> Find(Slots(image, g), name) == d * PER_SECTOR + i
    ensures i < PER_SECTOR ==> Slots(image, g)[d * PER_SECTOR + i] == DecodeEntry(sec, i)
  {
    var slots := Slots(image, g);
    forall k | d * PER_SECTOR <= k < d * PER_SECTOR + i
      ensures !Named(slots[k], name)
    {
      SlotRead(image, g, d, k - d * PER_SECTOR);
    }
    if i < PER_SECTOR {
      SlotRead(image, g, d, i);
    }
  }

  /** The first free slot, or -1. */
  function FirstFree(slots: seq<Entry>): (k: int)
    ensures -1 <= k < |slots|
    ensures k >= 0 ==> !Live(slots[k]) && forall j :: 0 <= j < k ==> Live(slots[j])
    ensures k < 0 ==> forall j :: 0 <= j < |slots| ==> Live(slots[j])
  {
    if slots == [] then -1
    else
      var k := FirstFree(slots[..|slots| - 1]);
      if k >= 0 then k else if !Live(slots[|slots| - 1]) then |slots| - 1 else -1
  }

  /** The end of the highest live extent, at least `floor`: where new data goes. */
  function HighestEnd(slots: seq<Entry>, floor: nat): (end: nat)
    ensures end >= floor
    ensures forall k :: 0 <= k < |slots| && Live(slots[k]) ==> End(slots[k]) <= end
    ensures end == floor || exists k :: 0 <= k < |slots| && Live(slots[k]) && End(slots[k]) == end
  {
    if slots == [] then floor
    else
      var h := HighestEnd(slots[..|slots| - 1], floor);
      var e := slots[|slots| - 1];
      if Live(e) && End(e) > h then End(e) else h
  }

  /** The variables of the directory scan in fs_write. */
  datatype Scan = Scan(slotSec: int, slotI: int, found: bool, oldLba: nat, oldCap: nat, nextFree: nat)

  /** One entry of the scan: entry `i` of directory sector `sec`. */
  function ScanEntry(s: Scan, e: Entry, sec: nat, i: nat, name: seq<byte>): Scan {
    if !Live(e) then
      if s.slotSec < 0 then s.(slotSec := sec, slotI := i) else s
    else
      var s' := if End(e) > s.nextFree then s.(nextFree := End(e)) else s;
      if !s.found && e.name == name then
        s'.(found := true, oldLba := e.lba, oldCap := SectorsOf(e.size), slotSec := sec, slotI := i)
      else s'
  }

  /** The scan after the first `n` slots. */
  function ScanTo(slots: seq<Entry>, n: nat, floor: nat, name: seq<byte>): Scan
    requires n <= |slots|
  {
    if n == 0 then Scan(-1, -1, false, 0, 0, floor)
    else ScanEntry(ScanTo(slots, n - 1, floor, name), slots[n - 1], (n - 1) / PER_SECTOR, (n - 1) % PER_SECTOR, name)
  }

  /** The scan finds the name's slot or else the first free one, and where the data ends. */
  lemma {:induction false} ScanFinds(slots: seq<Entry>, n: nat, floor: nat, name: seq<byte>)
    requires n <= |slots|
    ensures var s, k := ScanTo(slots, n, floor, name), Find(slots[..n], name);
            && (s.found <==> k >= 0)
            && s.nextFree == HighestEnd(slots[..n], floor)
            && (s.found ==> s.oldLba == slots[k].lba && s.oldCap == SectorsOf(slots[k].size))
            && (s.slotSec < 0 <==> !s.found && FirstFree(slots[..n]) < 0)
            && var at := if s.found then k else FirstFree(slots[..n]);
               (at >= 0 ==> s.slotSec == at / PER_SECTOR && s.slotI == at % PER_SECTOR)
  {
    if n > 0 {
      ScanFinds(slots, n - 1, floor, name);
      assert slots[..n][..n - 1] == slots[..n - 1] && slots[..n][n - 1] == slots[n - 1];
    }
  }

  predicate Apart(a: Entry, b: Entry) {
    End(a) <= b.lba || End(b) <= a.lba
  }

  predicate WellPlaced(e: Entry, g: Geometry, capacity: nat) {
    |e.name| < MAX_NAME && Roundable(e.size) && g.dataLba <= e.lba && End(e) <= capacity
  }

  /** Two live entries that can stand in one directory. */
  predicate Separate(a: Entry, b: Entry) {
    Live(a) && Live(b) ==> a.name != b.name && Apart(a, b)
  }

  /** The directory invariant: live entries are well formed, have distinct names and disjoint extents. */
  ghost predicate DirOk(slots: seq<Entry>, g: Geometry, capacity: nat) {
    && (forall k :: 0 <= k < |slots| && Live(slots[k]) ==> WellPlaced(slots[k], g, capacity))
    && (forall j, k {:trigger Separate(slots[j], slots[k])} :: 0 <= j < |slots| && 0 <= k < |slots| && j != k ==>
          Separate(slots[j], slots[k]))
  }

  ghost predicate ImageOk(image: Image, g: Geometry) {
    Fits(g, image) && DirOk(Slots(image, g), g, |image|)
  }

  // ---------------------------------------------------------------- the files it denotes

  /** `size` bytes read sector by sector from `lba`. */
  function BytesAt(image: Image, lba: nat, size: u32): (s: seq<byte>)
    requires Roundable(size) && lba + SectorsOf(size) <= |image|
    ensures |s| == size
  {
    seq(size, i requires 0 <= i < size => image[lba + i / SECTOR_SIZE][i % SECTOR_SIZE])
  }

  function FileAt(image: Image, e: Entry): File
    requires Roundable(e.size) && End(e) <= |image|
  {
    File(e.kind, BytesAt(image, e.lba, e.size))
  }

  ghost function FilesIn(image: Image, slots: seq<Entry>, g: Geometry): Files
    requires DirOk(slots, g, |image|)
  {
    map name | name in LiveNames(slots) :: FileAt(image, slots[Find(slots, name)])
  }

  lemma FilesInAt(image: Image, slots: seq<Entry>, g: Geometry, k: nat)
    requires DirOk(slots, g, |image|) && k < |slots| && Live(slots[k])
    ensures slots[k].name in FilesIn(image, slots, g)
    ensures FilesIn(image, slots, g)[slots[k].name] == FileAt(image, slots[k])
  {
    FindIs(slots, g, |image|, k);
  }

  lemma FilesInKeys(image: Image, slots: seq<Entry>, g: Geometry)
    requires DirOk(slots, g, |image|)
    ensures FilesIn(image, slots, g).Keys == LiveNames(slots)
  {
  }

  /** The abstract state: a map from names to (type, bytes). */
  ghost function FilesOf(image: Image, g: Geometry): Files
    requires ImageOk(image, g)
  {
    FilesIn(image, Slots(image, g), g)
  }

  ghost function LiveNames(slots: seq<Entry>): set<seq<byte>> {
    set k | 0 <= k < |slots| && Live(slots[k]) :: slots[k].name
  }

  /** With distinct names, `Find` returns the slot that holds the name. */
  lemma FindIs(slots: seq<Entry>, g: Geometry, capacity: nat, k: nat)
    requires DirOk(slots, g, capacity) && k < |slots| && Live(slots[k])
    ensures Find(slots, slots[k].name) == k
  {
    assert Find(slots, slots[k].name) != k ==> Separate(slots[Find(slots, slots[k].name)], slots[k]);
  }

  /** A sector no extent covers can change without changing the bytes of the extent. */
  lemma BytesAtSame(a: Image, b: Image, lba: nat, size: u32)
    requires Roundable(size) && lba + SectorsOf(size) <= |a| && lba + SectorsOf(size) <= |b|
    requires forall s :: lba <= s < lba + SectorsOf(size) ==> a[s] == b[s]
    ensures BytesAt(a, lba, size) == BytesAt(b, lba, size)
  {
    forall i | 0 <= i < size
      ensures BytesAt(a, lba, size)[i] == BytesAt(b, lba, size)[i]
    {
      assert lba <= lba + i / SECTOR_SIZE < lba + SectorsOf(size);
    }
  }

  // ---------------------------------------------------------------- the effect of one directory update

  /** Sector `s` belongs to the extent of `e`. */
  predicate Covers(e: Entry, s: nat) {
    e.lba <= s < End(e)
  }

  /** Every live extent outside slot `skip` holds the same sectors in both images. */
  ghost predicate SameExtents(a: Image, b: Image, slots: seq<Entry>, skip: int)
    requires |a| == |b|
  {
    forall k, s :: 0 <= k < |slots| && k != skip && 0 <= s < |a| && Live(slots[k]) && Covers(slots[k], s) ==> a[s] == b[s]
  }

  lemma FileAtSame(a: Image, b: Image, slots: seq<Entry>, g: Geometry, skip: int, k: nat)
    requires |a| == |b| && DirOk(slots, g, |a|) && SameExtents(a, b, slots, skip)
    requires k < |slots| && k != skip && Live(slots[k])
    ensures FileAt(a, slots[k]) == FileAt(b, slots[k])
  {
    var e := slots[k];
    forall s | e.lba <= s < e.lba + SectorsOf(e.size)
      ensures a[s] == b[s]
    {
      assert Covers(e, s);
    }
    BytesAtSame(a, b, e.lba, e.size);
  }

  /** Same directory, and every live extent untouched: the same files. */
  lemma SameFiles(a: Image, b: Image, slots: seq<Entry>, g: Geometry)
    requires |b| == |a| && DirOk(slots, g, |a|) && SameExtents(a, b, slots, -1)
    ensures FilesIn(b, slots, g) == FilesIn(a, slots, g)
  {
    forall name | name in LiveNames(slots)
      ensures FilesIn(b, slots, g)[name] == FilesIn(a, slots, g)[name]
    {
      FileAtSame(a, b, slots, g, -1, Find(slots, name));
    }
  }

  /** Replacing slot `k` by a live entry keeps the invariant. */
  lemma ReplaceKeepsDirOk(slots: seq<Entry>, g: Geometry, capacity: nat, k: nat, e: Entry)
    requires DirOk(slots, g, capacity) && k < |slots| && Live(e) && WellPlaced(e, g, capacity)
    requires Find(slots, e.name) == k || Find(slots, e.name) < 0
    requires forall j :: 0 <= j < |slots| && j != k && Live(slots[j]) ==> Apart(slots[j], e)
    ensures DirOk(slots[k := e], g, capacity)
  {
    var after := slots[k := e];
    forall i, j | 0 <= i < |after| && 0 <= j < |after| && i != j
      ensures Separate(after[i], after[j])
    {
      if i != k && j != k {
        assert Separate(slots[i], slots[j]);
      } else {
        var other := if i == k then j else i;
        assert Live(slots[other]) && slots[other].name == e.name ==> Find(slots, slots[other].name) == other by {
          if Live(slots[other]) {
            FindIs(slots, g, capacity, other);
          }
        }
      }
    }
  }

  /** So does replacing it by a free entry. */
  lemma FreeKeepsDirOk(slots: seq<Entry>, g: Geometry, capacity: nat, k: nat, e: Entry)
    requires DirOk(slots, g, capacity) && k < |slots| && !Live(e)
    ensures DirOk(slots[k := e], g, capacity)
  {
    var after := slots[k := e];
    forall i, j | 0 <= i < |after| && 0 <= j < |after| && i != j
      ensures Separate(after[i], after[j])
    {
      assert Separate(slots[i], slots[j]);
    }
  }

  lemma LiveNamesReplaced(slots: seq<Entry>, k: nat, e: Entry)
    requires k < |slots| && Live(e)
    requires Live(slots[k]) ==> slots[k].name == e.name
    ensures LiveNames(slots[k := e]) == LiveNames(slots) + {e.name}
  {
    var after := slots[k := e];
    forall n | n in LiveNames(slots) + {e.name} ensures n in LiveNames(after) {
      if n == e.name {
        assert after[k] == e;
      } else {
        var j :| 0 <= j < |slots| && Live(slots[j]) && slots[j].name == n;
        assert after[j] == slots[j];
      }
    }
    forall n | n in LiveNames(after) ensures n in LiveNames(slots) + {e.name} {
      var j :| 0 <= j < |after| && Live(after[j]) && after[j].name == n;
      assert j != k ==> after[j] == slots[j];
    }
  }

  /** Files whose slot did not change are the same files. */
  lemma OtherFileSame(a: Image, b: Image, slots: seq<Entry>, after: seq<Entry>, g: Geometry, k: nat, n: seq<byte>)
    requires |b| == |a| && DirOk(slots, g, |a|) && DirOk(after, g, |b|) && SameExtents(a, b, slots, k)
    requires k < |slots| == |after| && (forall j :: 0 <= j < |slots| && j != k ==> after[j] == slots[j])
    requires n in LiveNames(after) && Find(after, n) != k
    ensures n in LiveNames(slots) && FilesIn(b, after, g)[n] == FilesIn(a, slots, g)[n]
  {
    hide FileAt, WellPlaced, Apart, SameExtents;
    var j := Find(after, n);
    FindIs(slots, g, |a|, j);
    FileAtSame(a, b, slots, g, k, j);
  }

  /** What replacing one slot does to the files: exactly one name changes. */
  lemma SlotReplaced(a: Image, b: Image, slots: seq<Entry>, g: Geometry, k: nat, e: Entry)
    requires |b| == |a| && DirOk(slots, g, |a|) && k < |slots| && SameExtents(a, b, slots, k)
    requires Live(e) && WellPlaced(e, g, |a|)
    requires Find(slots, e.name) == k || (Find(slots, e.name) < 0 && !Live(slots[k]))
    requires forall j :: 0 <= j < |slots| && j != k && Live(slots[j]) ==> Apart(slots[j], e)
    ensures DirOk(slots[k := e], g, |b|)
    ensures FilesIn(b, slots[k := e], g) == FilesIn(a, slots, g)[e.name := FileAt(b, e)]
  {
    hide FileAt, FilesIn, Apart, SameExtents, DirOk, LiveNames;
    var after := slots[k := e];
    ReplaceKeepsDirOk(slots, g, |a|, k, e);
    LiveNamesReplaced(slots, k, e);
    FilesInKeys(a, slots, g);
    FilesInKeys(b, after, g);
    FilesInAt(b, after, g, k);
    FindIs(after, g, |b|, k);
    forall n | n in LiveNames(after) && n != e.name
      ensures n in LiveNames(slots) && FilesIn(b, after, g)[n] == FilesIn(a, slots, g)[n]
    {
      OtherFileSame(a, b, slots, after, g, k, n);
    }
    OneNameChanged(FilesIn(a, slots, g), FilesIn(b, after, g), e.name, FileAt(b, e));
  }

  lemma OneNameChanged(m: Files, m': Files, name: seq<byte>, f: File)
    requires m'.Keys == m.Keys + {name} && m'[name] == f && forall n :: n in m' && n != name ==> m'[n] == m[n]
    ensures m' == m[name := f]
  {
  }

  /** Slot `k` went from live to free and no other slot changed. */
  predicate Freed(before: seq<Entry>, after: seq<Entry>, k: int) {
    && |after| == |before| && 0 <= k < |before| && Live(before[k]) && !Live(after[k])
    && after == before[k := after[k]]
  }

  /** Freeing one slot removes exactly its name. */
  lemma SlotFreed(a: Image, b: Image, slots: seq<Entry>, g: Geometry, k: nat, e: Entry)
    requires |b| == |a| && DirOk(slots, g, |a|) && SameExtents(a, b, slots, k)
    requires k < |slots| && Live(slots[k]) && !Live(e)
    ensures DirOk(slots[k := e], g, |b|)
    ensures FilesIn(b, slots[k := e], g) == FilesIn(a, slots, g) - {slots[k].name}
  {
    hide FileAt, FilesIn, SameExtents, WellPlaced;
    var after, gone := slots[k := e], slots[k].name;
    FindIs(slots, g, |a|, k);
    FreeKeepsDirOk(slots, g, |a|, k, e);
    FilesInKeys(a, slots, g);
    FilesInKeys(b, after, g);
    assert LiveNames(after) == LiveNames(slots) - {gone} by {
      forall n | n in LiveNames(slots) - {gone} ensures n in LiveNames(after) {
        var j :| 0 <= j < |slots| && Live(slots[j]) && slots[j].name == n;
        assert after[j] == slots[j];
      }
      forall n | n in LiveNames(after) ensures n in LiveNames(slots) - {gone} {
        var j :| 0 <= j < |after| && Live(after[j]) && after[j].name == n;
        assert after[j] == slots[j] && Separate(slots[j], slots[k]);
      }
    }
    forall n | n in LiveNames(after)
      ensures n in LiveNames(slots) && FilesIn(b, after, g)[n] == FilesIn(a, slots, g)[n]
    {
      OtherFileSame(a, b, slots, after, g, k, n);
    }
  }

  // ---------------------------------------------------------------- sector writes

  /** Sectors below the data area hold the whole directory. */
  lemma SlotsSame(a: Image, b: Image, g: Geometry)
    requires Fits(g, a) && |a| == |b| && a[..g.dataLba] == b[..g.dataLba]
    ensures Slots(a, g) == Slots(b, g)
  {
    forall k | 0 <= k < g.dirSectors * PER_SECTOR
      ensures SlotAt(a, g, k) == SlotAt(b, g, k)
    {
      var s := g.dirLba + k / PER_SECTOR;
      assert a[..g.dataLba][s] == b[..g.dataLba][s];
    }
  }

  /** Writing back a directory sector with one slot changed changes one slot. */
  lemma SlotsUpdated(a: Image, sec: Sector, g: Geometry, d: nat, i: nat, e: Entry)
    requires Fits(g, a) && d < g.dirSectors && i < PER_SECTOR
    requires DecodeEntry(sec, i) == e
    requires forall j :: 0 <= j < PER_SECTOR && j != i ==> DecodeEntry(sec, j) == DecodeEntry(a[g.dirLba + d], j)
    ensures Slots(a[g.dirLba + d := sec], g) == Slots(a, g)[d * PER_SECTOR + i := e]
  {
    var b := a[g.dirLba + d := sec];
    forall k | 0 <= k < g.dirSectors * PER_SECTOR
      ensures SlotAt(b, g, k) == if k == d * PER_SECTOR + i then e else SlotAt(a, g, k)
    {
      assert k == k / PER_SECTOR * PER_SECTOR + k % PER_SECTOR;
    }
  }

  /** Sector `k` of a file: its 512 bytes, zero-padded after the end. */
  function Chunk(data: seq<byte>, k: nat): Sector {
    seq(SECTOR_SIZE, i requires 0 <= i < SECTOR_SIZE =>
      if SECTOR_SIZE * k + i < |data| then data[SECTOR_SIZE * k + i] else 0)
  }

  lemma ChunkIs(data: seq<byte>, k: nat, pad: Sector)
    requires SECTOR_SIZE * k <= |data|
    requires var n := if |data| - SECTOR_SIZE * k > SECTOR_SIZE then SECTOR_SIZE else |data| - SECTOR_SIZE * k;
             pad == data[SECTOR_SIZE * k..SECTOR_SIZE * k + n] + seq(SECTOR_SIZE - n, _ => 0)
    ensures pad == Chunk(data, k)
  {
  }

  /** The image once the first `n` sectors of `data` have been written at `lba`. */
  function WithExtent(a: Image, lba: nat, data: seq<byte>, n: nat): (b: Image)
    requires lba + n <= |a|
    ensures |b| == |a|
    ensures forall s :: 0 <= s < |a| ==> b[s] == if lba <= s < lba + n then Chunk(data, s - lba) else a[s]
  {
    a[..lba] + seq(n, k requires 0 <= k < n => Chunk(data, k)) + a[lba + n..]
  }

  lemma WithExtentNone(a: Image, lba: nat, data: seq<byte>)
    requires lba <= |a|
    ensures WithExtent(a, lba, data, 0) == a
  {
  }

  lemma WithExtentStep(a: Image, lba: nat, data: seq<byte>, n: nat)
    requires lba + n < |a|
    ensures WithExtent(a, lba, data, n)[lba + n := Chunk(data, n)] == WithExtent(a, lba, data, n + 1)
  {
  }

  /** A file written sector by sector reads back as it was given. */
  lemma ExtentReadsBack(a: Image, lba: nat, data: seq<byte>)
    requires Roundable(|data|) && lba + SectorsOf(|data|) <= |a|
    ensures BytesAt(WithExtent(a, lba, data, SectorsOf(|data|)), lba, |data|) == data
  {
    forall i | 0 <= i < |data|
      ensures BytesAt(WithExtent(a, lba, data, SectorsOf(|data|)), lba, |data|)[i] == data[i]
    {
      assert lba <= lba + i / SECTOR_SIZE < lba + SectorsOf(|data|);
      assert i == SECTOR_SIZE * (i / SECTOR_SIZE) + i % SECTOR_SIZE;
    }
  }

  /** `before` after the first `n` sectors have been overwritten in place by `data`. */
  function Torn(before: seq<byte>, data: seq<byte>, n: nat): (s: seq<byte>)
    ensures |s| == |before|
  {
    seq(|before|, i requires 0 <= i < |before| =>
      if i < SECTOR_SIZE * n then (if i < |data| then data[i] else 0) else before[i])
  }

  /** What an extent of `size` bytes holds after `n` sectors of `data` went over it. */
  lemma ExtentTorn(a: Image, lba: nat, size: u32, data: seq<byte>, n: nat)
    requires Roundable(size) && lba + SectorsOf(size) <= |a| && n <= SectorsOf(size)
    ensures BytesAt(WithExtent(a, lba, data, n), lba, size) == Torn(BytesAt(a, lba, size), data, n)
  {
    var b := WithExtent(a, lba, data, n);
    forall i | 0 <= i < size
      ensures BytesAt(b, lba, size)[i] == Torn(BytesAt(a, lba, size), data, n)[i]
    {
      assert lba <= lba + i / SECTOR_SIZE < lba + SectorsOf(size);
      assert i == SECTOR_SIZE * (i / SECTOR_SIZE) + i % SECTOR_SIZE;
      assert i / SECTOR_SIZE < n <==> i < SECTOR_SIZE * n;
    }
  }

  /** Storing a nameless entry in a free slot changes no file. */
  lemma FreeSlotReplaced(a: Image, b: Image, slots: seq<Entry>, g: Geometry, k: nat, e: Entry)
    requires |b| == |a| && DirOk(slots, g, |a|) && k < |slots| && SameExtents(a, b, slots, k)
    requires !Live(slots[k]) && !Live(e)
    ensures DirOk(slots[k := e], g, |b|)
    ensures FilesIn(b, slots[k := e], g) == FilesIn(a, slots, g)
  {
    hide FileAt, FilesIn, SameExtents, WellPlaced;
    var after := slots[k := e];
    FreeKeepsDirOk(slots, g, |a|, k, e);
    FilesInKeys(a, slots, g);
    FilesInKeys(b, after, g);
    assert LiveNames(after) == LiveNames(slots) by {
      forall n | n in LiveNames(slots) ensures n in LiveNames(after) {
        var j :| 0 <= j < |slots| && Live(slots[j]) && slots[j].name == n;
        assert after[j] == slots[j];
      }
    }
    forall n | n in LiveNames(after)
      ensures n in LiveNames(slots) && FilesIn(b, after, g)[n] == FilesIn(a, slots, g)[n]
    {
      OtherFileSame(a, b, slots, after, g, k, n);
    }
  }

  /** Clearing the first byte of one entry's name deletes one file. */
  lemma ClearedImage(a: Image, b: Image, g: Geometry, d: nat, i: nat, sec: Sector)
    requires ImageOk(a, g) && d < g.dirSectors && i < PER_SECTOR && Live(Slots(a, g)[d * PER_SECTOR + i])
    requires sec == a[g.dirLba + d][ENTRY_SIZE * i := 0] && b == a[g.dirLba + d := sec]
    ensures ImageOk(b, g) && Freed(Slots(a, g), Slots(b, g), d * PER_SECTOR + i)
    ensures FilesOf(b, g) == FilesOf(a, g) - {Slots(a, g)[d * PER_SECTOR + i].name}
    ensures b[g.dataLba..] == a[g.dataLba..]
  {
    hide FilesIn, DirOk, DecodeEntry;
    forall j | 0 <= j < PER_SECTOR
      ensures if j == i then !Live(DecodeEntry(sec, j)) else DecodeEntry(sec, j) == DecodeEntry(a[g.dirLba + d], j)
    {
      DecodeCleared(a[g.dirLba + d], i, j);
    }
    SlotsUpdated(a, sec, g, d, i, DecodeEntry(sec, i));
    assert SameExtents(a, b, Slots(a, g), d * PER_SECTOR + i) by {
      PlacedAboveDirectory(a, b, Slots(a, g), g, d * PER_SECTOR + i);
    }
    SlotFreed(a, b, Slots(a, g), g, d * PER_SECTOR + i, DecodeEntry(sec, i));
  }

  /** A change confined to the directory area disturbs no extent. */
  lemma PlacedAboveDirectory(a: Image, b: Image, slots: seq<Entry>, g: Geometry, skip: int)
    requires |a| == |b| && DirOk(slots, g, |a|) && forall s :: g.dataLba <= s < |a| ==> a[s] == b[s]
    ensures SameExtents(a, b, slots, skip)
  {
  }

  /** The entry called `n`, if any, is the same record in both directories. */
  ghost predicate KeepsEntry(before: seq<Entry>, after: seq<Entry>, n: seq<byte>) {
    Find(before, n) >= 0 ==> Find(after, n) >= 0 && after[Find(after, n)] == before[Find(before, n)]
  }

  /** Changing one slot keeps every entry whose name is not in that slot. */
  lemma OtherEntriesKept(before: seq<Entry>, after: seq<Entry>, g: Geometry, capacity: nat, k: nat, n: seq<byte>)
    requires DirOk(after, g, capacity) && k < |before| == |after| && after == before[k := after[k]]
    requires Live(before[k]) ==> before[k].name != n
    ensures KeepsEntry(before, after, n)
  {
    var j := Find(before, n);
    if j >= 0 {
      assert after[j] == before[j];
      FindIs(after, g, capacity, j);
    }
  }

  /** The directory on the disk: entry `k` is 32 bytes of its sector, sixteen entries to a sector, with the name first, its type at
      byte 23, its first sector at byte 24 and its size at byte 28. */
  lemma EntryOnDisk(a: Image, g: Geometry, k: nat)
    requires Fits(g, a) && k < |Slots(a, g)|
    ensures |Slots(a, g)| == 16 * g.dirSectors && g.dirLba + k / 16 < |a|
    ensures var sec, at, e := a[g.dirLba + k / 16], 32 * (k % 16), Slots(a, g)[k];
            && e.name == CString(sec[at..at + 23]) && e.kind == sec[at + 23]
            && e.lba == ReadLe32(sec, at + 24) && e.size == ReadLe32(sec, at + 28)
  {
    hide CString;
    var sec, i := a[g.dirLba + k / 16], k % 16;
    assert SlotBytes(sec, i)[..23] == sec[32 * i..32 * i + 23];
  }
}
