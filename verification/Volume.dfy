/** The directory layer of fs.c over a disk that may refuse any transfer. */
module FsVolume {
  import opened Bytes
  import opened AtaDisk
  import opened Directory
  import opened DirectoryLists
  import opened FsSpec

  /** A read that broke off: some whole sectors of the file lie over what the buffer held. */
  predicate PartlyRead(before: seq<byte>, after: seq<byte>, file: seq<byte>, k: nat) {
    k < |file| && k <= |before| && k % SECTOR_SIZE == 0 && after == file[..k] + before[k..]
  }

  lemma PartlyReadIs(before: seq<byte>, after: seq<byte>, file: seq<byte>, k: nat)
    requires k < |file| && k <= |before| == |after| && k % SECTOR_SIZE == 0
    requires forall i :: 0 <= i < k ==> after[i] == file[i]
    requires forall i :: k <= i < |before| ==> after[i] == before[i]
    ensures PartlyRead(before, after, file, k)
  {
  }

  class Volume {
    const disk: Ata
    const geo: Geometry

    ghost predicate Valid()
      reads this, disk
    {
      disk.Valid() && ImageOk(disk.image, geo)
    }

    ghost function Dir(): seq<Entry>
      requires Valid()
      reads this, disk
    {
      Slots(disk.image, geo)
    }

    /** The abstract state: names to (type, bytes). */
    ghost function Contents(): Files
      requires Valid()
      reads this, disk
    {
      FilesOf(disk.image, geo)
    }

    /** Mounting: the geometry comes from a superblock and the directory satisfies the invariant. */
    constructor (ata: Ata, sb: Geometry)
      requires ata.Valid() && ImageOk(ata.image, sb)
      ensures Valid() && disk == ata && geo == sb
    {
      disk, geo := ata, sb;
    }

    /** The entry loop of fs_find and fs_delete over one directory sector. */
    static method ScanSector(buf: Sector, name: seq<byte>) returns (i: nat)
      ensures i <= PER_SECTOR
      ensures forall j :: 0 <= j < i ==> !Named(DecodeEntry(buf, j), name)
      ensures i < PER_SECTOR ==> Named(DecodeEntry(buf, i), name)
    {
      i := 0;
      while i < PER_SECTOR
        invariant i <= PER_SECTOR
        invariant forall j :: 0 <= j < i ==> !Named(DecodeEntry(buf, j), name)
      {
        if Named(DecodeEntry(buf, i), name) {
          return;
        }
        i := i + 1;
      }
    }

    /** The directory scan shared by fs_find and fs_delete: sector and position of the first match. */
    method Locate(name: seq<byte>) returns (rc: int, sec: nat, i: nat, buf: Sector)
      requires Valid()
      modifies disk`faults
      ensures Valid() && disk.faults >= old(disk.faults)
      ensures rc == 0 ==> sec < geo.dirSectors && i < PER_SECTOR && buf == disk.image[geo.dirLba + sec]
      ensures rc == 0 ==> Find(Dir(), name) == sec * PER_SECTOR + i && Dir()[sec * PER_SECTOR + i] == DecodeEntry(buf, i)
      ensures rc != 0 ==> rc == -1 && (Find(Dir(), name) < 0 || disk.faults > old(disk.faults))
    {
      hide DirOk, DecodeEntry, Named;
      ghost var slots, n := Dir(), 0;
      var ok;
      sec, i, buf := 0, 0, seq(SECTOR_SIZE, _ => 0);
      while sec < geo.dirSectors
        invariant sec <= geo.dirSectors && disk.Valid() && disk.faults >= old(disk.faults)
        invariant n == sec * PER_SECTOR && NotAmong(slots, n, name)
      {
        ok, buf := disk.ReadSector(geo.dirLba + sec);
        if ok != 0 {
          return -1, sec, i, buf;
        }
        i := ScanSector(buf, name);
        SectorScanned(disk.image, geo, sec, buf, i, name);
        if i < PER_SECTOR {
          return 0, sec, i, buf;
        }
        n := n + PER_SECTOR;
        sec := sec + 1;
      }
      rc := -1;
    }

    /** fs_find. */
    method Lookup(name: seq<byte>) returns (rc: int, e: Entry)
      requires Valid()
      modifies disk`faults
      ensures Valid() && disk.faults >= old(disk.faults)
      ensures rc == 0 ==> Find(Dir(), name) >= 0 && e == Dir()[Find(Dir(), name)]
      ensures rc != 0 ==> rc == -1 && (Find(Dir(), name) < 0 || disk.faults > old(disk.faults))
    {
      var sec, i, buf;
      e := Entry([], 0, 0, 0);
      rc, sec, i, buf := Locate(name);
      if rc == 0 {
        e := DecodeEntry(buf, i);
      }
    }

    /** The sector loop shared by fs_read and fs_append: copies an extent into a buffer. */
    method LoadExtent(lba: nat, size: u32, buf: array<byte>) returns (rc: int)
      requires Valid() && Roundable(size) && lba + SectorsOf(size) <= |disk.image| && size <= buf.Length
      modifies disk`faults, buf
      ensures Valid() && disk.faults >= old(disk.faults)
      ensures rc == 0 ==> buf[..size] == BytesAt(disk.image, lba, size)
      ensures rc != 0 ==> rc == -1 && disk.faults > old(disk.faults)
      ensures rc != 0 ==> exists k :: PartlyRead(old(buf[..]), buf[..], BytesAt(disk.image, lba, size), k)
      ensures buf[size..] == old(buf[size..])
    {
      hide DirOk, Slots, PartlyRead;
      var off, remaining: int := 0, size;
      while remaining > 0
        invariant 0 <= off <= size && remaining == size - off && Valid() && disk.faults >= old(disk.faults)
        invariant off % SECTOR_SIZE == 0 || remaining == 0
        invariant forall i :: 0 <= i < off ==> buf[i] == BytesAt(disk.image, lba, size)[i]
        invariant forall i :: off <= i < buf.Length ==> buf[i] == old(buf[i])
      {
        var ok, sec := disk.ReadSector(lba + off / SECTOR_SIZE);
        if ok != 0 {
          PartlyReadIs(old(buf[..]), buf[..], BytesAt(disk.image, lba, size), off);
          return -1;
        }
        var n := if remaining < SECTOR_SIZE then remaining else SECTOR_SIZE;
        forall i | 0 <= i < n {
          buf[off + i] := sec[i];
        }
        assert forall i :: off <= i < off + n ==> i / SECTOR_SIZE == off / SECTOR_SIZE && i % SECTOR_SIZE == i - off;
        off := off + n;
        remaining := remaining - n;
      }
      rc := 0;
    }

    /** fs_read: the whole file or an error. */
    method ReadFile(name: seq<byte>, buf: array<byte>, max: nat) returns (rc: int)
      requires Valid() && max <= buf.Length < 0x8000_0000
      modifies disk`faults, buf
      ensures Valid() && disk.faults >= old(disk.faults)
      ensures rc >= 0 ==> name in Contents() && rc <= max && buf[..rc] == Contents()[name].bytes && buf[rc..] == old(buf[rc..])
      ensures rc < 0 ==> rc == -1 && (disk.faults > old(disk.faults) || name !in Contents() || |Contents()[name].bytes| > max)
      ensures rc < 0 ==> buf[..] == old(buf[..])
                         || (name in Contents() && exists k :: PartlyRead(old(buf[..]), buf[..], Contents()[name].bytes, k))
    {
      hide PartlyRead;
      var found, e := Lookup(name);
      if found != 0 {
        return -1;
      }
      if e.size > max {
        return -1;
      }
      var loaded := LoadExtent(e.lba, e.size, buf);
      if loaded != 0 {
        return -1;
      }
      rc := e.size;
    }

    /** The entry loop of fs_write over directory sector `sec`. */
    static method ScanEntries(buf: Sector, sec: nat, name: seq<byte>, before: Scan, ghost slots: seq<Entry>, ghost floor: nat)
      returns (scan: Scan)
      requires (sec + 1) * PER_SECTOR <= |slots|
      requires forall j :: 0 <= j < PER_SECTOR ==> DecodeEntry(buf, j) == slots[sec * PER_SECTOR + j]
      requires before == ScanTo(slots, sec * PER_SECTOR, floor, name)
      ensures scan == ScanTo(slots, (sec + 1) * PER_SECTOR, floor, name)
    {
      scan := before;
      var i := 0;
      while i < PER_SECTOR
        invariant 0 <= i <= PER_SECTOR
        invariant scan == ScanTo(slots, sec * PER_SECTOR + i, floor, name)
      {
        assert (sec * PER_SECTOR + i) / PER_SECTOR == sec && (sec * PER_SECTOR + i) % PER_SECTOR == i;
        scan := ScanEntry(scan, DecodeEntry(buf, i), sec, i, name);
        i := i + 1;
      }
    }

    /** The directory scan of fs_write: the slot to use, the old extent, and the end of the data. */
    method ScanDirectory(name: seq<byte>) returns (rc: int, scan: Scan)
      requires Valid()
      modifies disk`faults
      ensures Valid() && disk.faults >= old(disk.faults)
      ensures rc == 0 ==> scan == ScanTo(Dir(), |Dir()|, geo.dataLba, name)
      ensures rc != 0 ==> rc == -1 && disk.faults > old(disk.faults)
    {
      hide ScanEntry, DirOk;
      ghost var slots := Dir();
      scan := Scan(-1, -1, false, 0, 0, geo.dataLba);
      var sec := 0;
      ghost var n := 0;
      while sec < geo.dirSectors
        invariant 0 <= sec <= geo.dirSectors && disk.Valid() && disk.faults >= old(disk.faults)
        invariant n == sec * PER_SECTOR && scan == ScanTo(slots, n, geo.dataLba, name)
      {
        var ok, buf := disk.ReadSector(geo.dirLba + sec);
        if ok != 0 {
          return -1, scan;
        }
        SectorHolds(disk.image, geo, sec, buf);
        scan := ScanEntries(buf, sec, name, scan, slots, geo.dataLba);
        n := n + PER_SECTOR;
        sec := sec + 1;
      }
      rc := 0;
    }

    /** The data loop of fs_write: one padded sector at a time. */
    method WriteData(lba: nat, data: seq<byte>) returns (rc: int)
      requires disk.Valid() && lba <= |disk.image| && Roundable(|data|)
      modifies disk
      ensures disk.Valid() && disk.faults >= old(disk.faults)
      ensures old(disk.history) <= disk.history
      ensures var done := |disk.history| - |old(disk.history)|;
              && done <= SectorsOf(|data|) && lba + done <= |old(disk.image)|
              && disk.image == WithExtent(old(disk.image), lba, data, done)
              && (rc == 0 ==> done == SectorsOf(|data|))
      ensures forall h :: |old(disk.history)| <= h < |disk.history| ==>
                disk.history[h] == WithExtent(old(disk.image), lba, data, h + 1 - |old(disk.history)|)
      ensures rc != 0 ==> rc == -1 && disk.faults > old(disk.faults)
    {
      hide Chunk, SectorsOf, WithExtent;
      WithExtentNone(disk.image, lba, data);
      ghost var image, first := disk.image, |disk.history|;
      var sectors := SectorsOf(|data|);
      var k := 0;
      while k < sectors
        invariant 0 <= k <= sectors && lba + k <= |image|
        invariant disk.Valid() && disk.faults >= old(disk.faults)
        invariant old(disk.history) <= disk.history && |disk.history| == first + k
        invariant disk.image == WithExtent(image, lba, data, k)
        invariant forall h :: first <= h < first + k ==> disk.history[h] == WithExtent(image, lba, data, h + 1 - first)
      {
        SectorStarts(|data|, k);
        var chunk := if |data| - k * SECTOR_SIZE > SECTOR_SIZE then SECTOR_SIZE else |data| - k * SECTOR_SIZE;
        var pad: Sector := data[k * SECTOR_SIZE..k * SECTOR_SIZE + chunk] + seq(SECTOR_SIZE - chunk, _ => 0);
        ChunkIs(data, k, pad);
        var ok := disk.WriteSector(lba + k, pad);
        if ok != 0 {
          return -1;
        }
        WithExtentStep(image, lba, data, k);
        k := k + 1;
      }
      rc := 0;
    }

    /** The directory update of fs_write: read the sector again, replace one slot, write it back. */
    method StoreEntry(sec: nat, i: nat, e: Entry) returns (rc: int, ghost landed: bool)
      requires disk.Valid() && Fits(geo, disk.image) && sec < geo.dirSectors && i < PER_SECTOR
      requires |e.name| < MAX_NAME && IsCString(e.name)
      modifies disk
      ensures disk.Valid() && disk.faults >= old(disk.faults) && |disk.image| == |old(disk.image)|
      ensures rc == 0 ==> landed
      ensures landed ==> Slots(disk.image, geo) == old(Slots(disk.image, geo))[sec * PER_SECTOR + i := e]
      ensures landed ==> disk.history == old(disk.history) + [disk.image]
      ensures landed ==> disk.image[geo.dataLba..] == old(disk.image[geo.dataLba..])
      ensures !landed ==> disk.image == old(disk.image) && disk.history == old(disk.history)
      ensures rc != 0 ==> rc == -1 && disk.faults > old(disk.faults)
    {
      var ok, buf := disk.ReadSector(geo.dirLba + sec);
      if ok != 0 {
        return -1, false;
      }
      ghost var before := disk.image;
      var updated := PutSlot(buf, i, Encode(e));
      forall j | 0 <= j < PER_SECTOR
        ensures DecodeEntry(updated, j) == if j == i then e else DecodeEntry(buf, j)
      {
        DecodePutEntry(buf, i, e, j);
      }
      ghost var past := disk.history;
      rc := disk.WriteSector(geo.dirLba + sec, updated);
      landed := disk.history != past;
      if landed {
        SlotsUpdated(before, updated, geo, sec, i, e);
      }
    }

    /** The writing half of fs_write: data sectors first, then the one directory sector. */
    method PlaceFile(name: seq<byte>, kind: byte, data: seq<byte>, sec: nat, i: nat, lba: nat) returns (rc: int)
      requires Valid() && |name| < MAX_NAME && IsCString(name) && Roundable(|data|)
      requires sec < geo.dirSectors && i < PER_SECTOR && sec * PER_SECTOR + i == SlotFor(Dir(), name)
      requires lba == Target(Dir(), geo, name, data)
      modifies disk
      ensures Valid() && |disk.image| == |old(disk.image)| && disk.faults >= old(disk.faults) && old(disk.history) <= disk.history
      ensures rc == 0 ==> Stored(old(Contents()), Contents(), name, kind, data)
      ensures rc == 0 ==> Placed(old(Dir()), Dir(), geo, name, kind, data)
      ensures rc != 0 ==> rc == -1 && Failed(old(Contents()), Contents(), name, kind, data)
      ensures Dir() == old(Dir()) || Placed(old(Dir()), Dir(), geo, name, kind, data)
      ensures Recorded(disk.history, |old(disk.history)|, geo, old(Contents()), name, kind, data)
      ensures disk.faults == old(disk.faults) ==> rc == 0
    {
      hide FilesOf, Slots, Target, DirOk, WithExtent, TornWrite, Wrote, BytesAt;
      ghost var a, slots, m, first := disk.image, Dir(), Contents(), |disk.history|;
      TargetBounds(slots, geo, |a|, name, data);
      rc := WriteData(lba, data);
      ghost var done := |disk.history| - first;
      DataPhase(a, geo, name, data, done);
      DataRecorded(disk.history, first, a, geo, name, kind, data);
      if rc != 0 {
        return;
      }
      ghost var b, past := disk.image, disk.history;
      var e := Entry(name, kind, lba, |data|);
      ghost var landed;
      rc, landed := StoreEntry(sec, i, e);
      if landed {
        EntryPhaseImage(a, b, disk.image, slots, geo, sec * PER_SECTOR + i, e, data);
        if name != [] {
          WriteIsReachable(m, name, kind, data);
        }
        assert disk.history == past + [disk.image];
      }
    }

    /** fs_write up to and including the directory update of the target itself. */
    method WriteOne(name: seq<byte>, kind: byte, data: seq<byte>) returns (rc: int)
      requires Valid() && |name| < MAX_NAME && IsCString(name) && Roundable(|data|)
      modifies disk
      ensures Valid() && |disk.image| == |old(disk.image)| && disk.faults >= old(disk.faults) && old(disk.history) <= disk.history
      ensures rc == 0 ==> Stored(old(Contents()), Contents(), name, kind, data)
      ensures rc == 0 ==> Placed(old(Dir()), Dir(), geo, name, kind, data)
      ensures rc != 0 ==> rc == -1 && Failed(old(Contents()), Contents(), name, kind, data)
      ensures OthersKept(old(Dir()), Dir(), name)
      ensures Recorded(disk.history, |old(disk.history)|, geo, old(Contents()), name, kind, data)
      ensures disk.faults == old(disk.faults) ==> (rc == 0 <==> SlotFor(old(Dir()), name) >= 0)
    {
      hide FilesOf, DirOk, FilesIn, TornWrite, Wrote, ScanEntry, OthersKept;
      ghost var slots := Dir();
      DirKept(slots, name);
      var scan;
      rc, scan := ScanDirectory(name);
      if rc != 0 {
        return;
      }
      ScanFinds(slots, |slots|, geo.dataLba, name);
      assert slots[..|slots|] == slots;
      if scan.slotSec < 0 {
        return -1;
      }
      var sectors := SectorsOf(|data|);
      var lba := if scan.found && sectors <= scan.oldCap then scan.oldLba else scan.nextFree;
      rc := PlaceFile(name, kind, data, scan.slotSec, scan.slotI, lba);
      if Dir() != slots {
        PlacedKeepsEntries(slots, name, kind, data);
      }
    }

    lemma DirKept(slots: seq<Entry>, name: seq<byte>)
      ensures OthersKept(slots, slots, name)
    {
    }

    /** fs_write. The error of the parent's append is dropped, as in the source. */
    method Write(name: seq<byte>, kind: byte, data: seq<byte>) returns (rc: int)
      requires Valid() && IsCString(name) && Roundable(|data|)
      modifies disk
      ensures Valid() && |disk.image| == |old(disk.image)| && disk.faults >= old(disk.faults) && old(disk.history) <= disk.history
      ensures rc == 0 || rc == -1
      ensures rc == 0 ==> if name == [] then Contents() == old(Contents()) else Wrote(old(Contents()), Contents(), name, kind, data)
      ensures rc != 0 ==> Failed(old(Contents()), Contents(), name, kind, data)
      ensures Recorded(disk.history, |old(disk.history)|, geo, old(Contents()), name, kind, data)
      ensures EntriesKept(old(Dir()), Dir(), name)
      ensures !Accepts(old(Contents()), name) ==> rc == -1 && disk.history == old(disk.history) && Contents() == old(Contents())
      ensures disk.faults == old(disk.faults) ==>
                (rc == 0 <==> Accepts(old(Contents()), name) && SlotFor(old(Dir()), name) >= 0)
      ensures disk.faults == old(disk.faults) && rc == 0 && name != [] ==>
                Contents() == WriteAll(old(Contents()), name, kind, data)
      ensures disk.faults == old(disk.faults) && rc == 0 && HasRoom(old(Contents()), name) ==>
                Parent(name) in Contents() &&
                Contents()[Parent(name)] == File(FS_DIR, old(Contents())[Parent(name)].bytes + name + [10])
      decreases |name|, 0
    {
      hide HasRoom, FilesOf, DirOk, TornWrite, Wrote, Slots, WriteAll, AppendAll, AppendWrote, Reachable, Placed,
        SlotFor, OthersKept, EntriesKept, Failed, Ancestor;
      ghost var m, first, slots := Contents(), |disk.history|, Dir();
      EntriesKeptSame(slots, name);
      NothingDone(m, name, kind, data);
      if |name| >= MAX_NAME {
        return -1;
      }
      var slashed := FindSlash(name);
      if slashed {
        var parent := ParentOf(name);
        if parent != [] {
          var found, pe := Lookup(parent);
          LookupMeans(parent);
          if found != 0 {
            return -1;
          }
        }
      } else {
        NoSlashNoParent(name);
      }
      rc := WriteOne(name, kind, data);
      ghost var midSlots, past := Dir(), disk.history;
      OthersKeptAreEntries(slots, midSlots, name);
      if rc != 0 {
        return;
      }
      WroteStart(m, name, kind, data);
      if slashed {
        var parent := ParentOf(name);
        if parent != [] {
          var ignored := Append(parent, name);
          WroteMore(m, Contents(), name, kind, data);
          EntriesKeptThroughParent(slots, midSlots, Dir(), name);
          RecordedJoin(past, disk.history, first, geo, m, name, kind, data);
        }
      }
      if HasRoom(m, name) {
        ParentListed(m, name, kind, data);
        RoomHasParent(m, name);
      }
    }

    /** fs_append: adds a line to a directory's list by rewriting the whole list. */
    method Append(dir: seq<byte>, path: seq<byte>) returns (rc: int)
      requires Valid() && dir != [] && IsCString(dir)
      modifies disk
      ensures Valid() && |disk.image| == |old(disk.image)| && disk.faults >= old(disk.faults) && old(disk.history) <= disk.history
      ensures rc == 0 || rc == -1
      ensures rc == 0 ==> AppendWrote(old(Contents()), Contents(), dir, path)
      ensures Contents() == old(Contents()) || AppendWrote(old(Contents()), Contents(), dir, path)
      ensures rc != 0 && Contents() != old(Contents()) ==>
                disk.faults > old(disk.faults) && Contents() == old(Contents())[dir := File(FS_DIR, WithLine(old(Contents()), dir, path))]
      ensures EntriesKept(old(Dir()), Dir(), dir)
      ensures RecordedAppend(disk.history, |old(disk.history)|, geo, old(Contents()), dir, path)
      ensures disk.faults == old(disk.faults) ==> Contents() == AppendAll(old(Contents()), dir, path)
      decreases |dir|, 1
    {
      hide FilesOf, DirOk, TornWrite, Wrote, Slots, WriteAll, BytesAt;
      ghost var m, first := Contents(), |disk.history|;
      var found, e := Lookup(dir);
      LookupMeans(dir);
      if found != 0 {
        return -1;
      }
      var buf := new byte[DIR_BUF_SIZE];
      if e.size >= buf.Length {
        return -1;
      }
      var loaded := LoadExtent(e.lba, e.size, buf);
      if loaded != 0 {
        return -1;
      }
      var off: nat := e.size;
      if off + |path| + 1 >= buf.Length {
        return -1;
      }
      off := AppendLine(buf, off, path);
      rc := Write(dir, FS_DIR, buf[..off]);
      AppendSettles(m, Contents(), dir, path, rc);
      AppendRecorded(disk.history, first, geo, m, dir, path);
    }

    /** The copying loop of fs_append. */
    static method AppendLine(buf: array<byte>, from: nat, path: seq<byte>) returns (off: nat)
      requires from + |path| < buf.Length
      modifies buf
      ensures off == from + |path| + 1
      ensures buf[..off] == old(buf[..from]) + path + [NEWLINE]
    {
      off := from;
      var k := 0;
      while k < |path|
        invariant 0 <= k <= |path| && off == from + k
        invariant buf[..off] == old(buf[..from]) + path[..k]
      {
        buf[off] := path[k];
        off := off + 1;
        k := k + 1;
      }
      buf[off] := NEWLINE;
      off := off + 1;
    }

    /** has_slash. */
    static method FindSlash(s: seq<byte>) returns (yes: bool)
      ensures yes <==> HasSlash(s)
    {
      var i := 0;
      while i < |s|
        invariant 0 <= i <= |s| && forall k :: 0 <= k < i ==> s[k] != SLASH
      {
        if s[i] == SLASH {
          return true;
        }
        i := i + 1;
      }
      yes := false;
    }

    /** parent_of. */
    static method ParentOf(path: seq<byte>) returns (dir: seq<byte>)
      ensures dir == Parent(path)
    {
      var slash, i := -1, 0;
      while i < |path|
        invariant 0 <= i <= |path| && slash == LastSlash(path[..i])
      {
        assert path[..i + 1][..i] == path[..i];
        if path[i] == SLASH {
          slash := i;
        }
        i := i + 1;
      }
      assert path[..i] == path;
      dir := if slash < 0 then [] else path[..slash];
    }

    lemma PlacedKeepsEntries(before: seq<Entry>, name: seq<byte>, kind: byte, data: seq<byte>)
      requires Valid() && Placed(before, Dir(), geo, name, kind, data)
      ensures OthersKept(before, Dir(), name)
    {
      hide Slots, FilesOf, Target;
      forall n | n != name
        ensures KeepsEntry(before, Dir(), n)
      {
        OtherEntriesKept(before, Dir(), geo, |disk.image|, SlotFor(before, name), n);
      }
    }

    lemma LookupMeans(name: seq<byte>)
      requires Valid()
      ensures name in Contents() <==> Find(Dir(), name) >= 0
      ensures name in Contents() ==> var e := Dir()[Find(Dir(), name)];
                WellPlaced(e, geo, |disk.image|) && Contents()[name] == FileAt(disk.image, e)
    {
    }

    /** fs_delete. */
    method Delete(name: seq<byte>) returns (rc: int)
      requires Valid()
      modifies disk
      ensures Valid() && |disk.image| == |old(disk.image)| && disk.faults >= old(disk.faults)
      ensures rc == 0 ==> name in old(Contents()) && Contents() == old(Contents()) - {name}
      ensures rc == 0 ==> var k := Find(old(Dir()), name); Freed(old(Dir()), Dir(), k)
      ensures rc != 0 ==> rc == -1 && (disk.image == old(disk.image) ||
                          (disk.faults > old(disk.faults) && name in old(Contents()) && Contents() == old(Contents()) - {name}))
      ensures rc != 0 ==> name !in old(Contents()) || disk.faults > old(disk.faults)
      ensures OthersKept(old(Dir()), Dir(), name)
      ensures disk.image[geo.dataLba..] == old(disk.image[geo.dataLba..])
    {
      hide Slots;
      ghost var slots := Dir();
      var sec, i, buf;
      rc, sec, i, buf := Locate(name);
      if rc == 0 {
        rc := ClearSlot(sec, i, buf);
        DeleteKeepsEntries(slots, name);
      }
    }

    lemma DeleteKeepsEntries(before: seq<Entry>, name: seq<byte>)
      requires Valid() && Find(before, name) >= 0
      requires Freed(before, Dir(), Find(before, name)) || Dir() == before
      ensures OthersKept(before, Dir(), name)
    {
      hide Slots, FilesOf;
      forall n | n != name
        ensures KeepsEntry(before, Dir(), n)
      {
        if Dir() != before {
          OtherEntriesKept(before, Dir(), geo, |disk.image|, Find(before, name), n);
        }
      }
    }

    /** The directory update of fs_delete: the name's first byte becomes NUL. */
    method ClearSlot(sec: nat, i: nat, buf: Sector) returns (rc: int)
      requires Valid() && sec < geo.dirSectors && i < PER_SECTOR && buf == disk.image[geo.dirLba + sec]
      requires Live(Dir()[sec * PER_SECTOR + i])
      modifies disk
      ensures Valid() && |disk.image| == |old(disk.image)| && disk.faults >= old(disk.faults)
      ensures rc != 0 ==> rc == -1 && disk.faults > old(disk.faults)
      ensures (rc != 0 && disk.image == old(disk.image)) ||
              (Freed(old(Dir()), Dir(), sec * PER_SECTOR + i) &&
               Contents() == old(Contents()) - {old(Dir())[sec * PER_SECTOR + i].name})
      ensures disk.image[geo.dataLba..] == old(disk.image[geo.dataLba..])
    {
      var cleared: Sector := buf[ENTRY_SIZE * i := 0];
      ghost var before := disk.image;
      rc := disk.WriteSector(geo.dirLba + sec, cleared);
      if rc == 0 || disk.image != before {
        ClearedImage(before, disk.image, geo, sec, i, cleared);
      }
    }
  }
}
