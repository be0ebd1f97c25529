/** The open-handle layer of fs.c: streamed read handles and one buffered writable handle. */
module OpenFileTable {
  import opened Bytes
  import opened AtaDisk
  import opened Directory
  import opened FsSpec
  import opened FsVolume

  const FS_MAX_OPEN := 8
  const FS_FD_BASE := 3
  const FD_BUF_SIZE := 65536

  const O_WRITE_MASK: bv32 := 0x0006 // FS_O_WRONLY | FS_O_RDWR
  const FS_O_CREAT: bv32 := 0x0008
  const FS_O_TRUNC: bv32 := 0x0010
  const FS_O_APPEND: bv32 := 0x0020

  predicate WantsWrite(flags: bv32) {
    flags & O_WRITE_MASK != 0
  }

  predicate Creates(flags: bv32) {
    flags & FS_O_CREAT != 0
  }

  predicate Truncates(flags: bv32) {
    flags & FS_O_TRUNC != 0
  }

  predicate Appends(flags: bv32) {
    flags & FS_O_APPEND != 0
  }

  const SEEK_SET := 0
  const SEEK_CUR := 1
  const SEEK_END := 2

  /** struct fs_handle. */
  datatype Handle = Handle(used: bool, writable: bool, dirty: bool, kind: byte, name: seq<byte>,
                           lba: u32, size: u32, wlen: u32, offset: u32)

  const CLEARED := Handle(false, false, false, 0, [], 0, 0, 0, 0)

  // ---------------------------------------------------------------- the model: a byte file with a position

  datatype ByteFile = ByteFile(bytes: seq<byte>, pos: nat)

  function Min(a: nat, b: nat): nat {
    if a < b then a else b
  }

  /** What reading up to `n` bytes yields. */
  function ReadOf(f: ByteFile, n: nat): seq<byte> {
    if f.pos < |f.bytes| then f.bytes[f.pos..Min(f.pos + n, |f.bytes|)] else []
  }

  /** The bytes with a zero-filled gap up to the position. */
  function Padded(f: ByteFile): seq<byte> {
    if f.pos <= |f.bytes| then f.bytes else f.bytes + seq(f.pos - |f.bytes|, _ => 0)
  }

  /** Overwrite and extend at the position, filling a gap with zeros even when nothing is written. */
  function WriteOf(f: ByteFile, data: seq<byte>): (w: ByteFile)
    ensures w.pos == f.pos + |data| && |w.bytes| == if |Padded(f)| > w.pos then |Padded(f)| else w.pos
    ensures forall i :: 0 <= i < |w.bytes| ==>
              w.bytes[i] == if f.pos <= i < f.pos + |data| then data[i - f.pos] else Padded(f)[i]
  {
    var base := Padded(f);
    ByteFile(base[..f.pos] + data + base[Min(f.pos + |data|, |base|)..], f.pos + |data|)
  }

  /** Reading back from where a write started returns what was written. */
  lemma ReadOfWriteOf(f: ByteFile, data: seq<byte>)
    ensures ReadOf(WriteOf(f, data).(pos := f.pos), |data|) == data
  {
    var w := WriteOf(f, data);
    if data != [] {
      assert w.bytes[f.pos..f.pos + |data|] == data;
    }
  }

  /** Consecutive writes are one write, and a write changes nothing before its position. */
  lemma WriteOfWriteOf(f: ByteFile, a: seq<byte>, b: seq<byte>)
    ensures WriteOf(WriteOf(f, a), b) == WriteOf(f, a + b)
    ensures WriteOf(f, a).bytes[..f.pos] == Padded(f)[..f.pos]
  {
  }

  class OpenFiles {
    const vol: Volume
    const handles: array<Handle>
    const wbuf: array<byte>
    /** Read handles whose file nobody has rewritten or deleted since they were opened, with the bytes seen then. */
    ghost var intact: map<int, seq<byte>>

    ghost predicate Valid()
      reads this, vol, vol.disk, handles, wbuf
    {
      && vol.Valid() && handles.Length == FS_MAX_OPEN && wbuf.Length == FD_BUF_SIZE
      && (forall i :: 0 <= i < FS_MAX_OPEN && handles[i].used ==> HandleOk(handles[i], |vol.disk.image|))
      && OneWriter(handles[..])
      && (forall i :: i in intact ==> 0 <= i < FS_MAX_OPEN && SeesSnapshot(handles[i], intact[i], vol.disk.image, vol.Dir()))
    }

    constructor (v: Volume)
      requires v.Valid()
      ensures Valid() && vol == v && fresh(handles) && fresh(wbuf) && intact == map[]
      ensures forall i :: 0 <= i < FS_MAX_OPEN ==> !handles[i].used
    {
      vol := v;
      handles := new Handle[FS_MAX_OPEN](_ => CLEARED);
      wbuf := new byte[FD_BUF_SIZE](_ => 0);
      intact := map[];
    }

    predicate IsOpen(fd: int)
      requires handles.Length == FS_MAX_OPEN
      reads handles
    {
      FS_FD_BASE <= fd < FS_FD_BASE + FS_MAX_OPEN && handles[fd - FS_FD_BASE].used
    }

    /** The byte file an open descriptor stands for. */
    ghost function View(fd: int): ByteFile
      requires Valid() && IsOpen(fd)
      reads this, vol, vol.disk, handles, wbuf
    {
      ViewOf(handles[fd - FS_FD_BASE], vol.disk.image, wbuf[..])
    }

    /** fd_lookup. */
    method FdLookup(fd: int) returns (i: int)
      requires Valid()
      ensures if IsOpen(fd) then i == fd - FS_FD_BASE else i == -1
    {
      i := fd - FS_FD_BASE;
      if i < 0 || i >= FS_MAX_OPEN || !handles[i].used {
        i := -1;
      }
    }

    /** fs_open. */
    method Open(name: seq<byte>, flags: bv32) returns (fd: int)
      requires Valid() && IsCString(name)
      modifies this`intact, vol.disk`faults, handles, wbuf
      ensures Valid() && vol.disk.faults >= old(vol.disk.faults)
      ensures fd == -1 || (IsOpen(fd) && fd - FS_FD_BASE == FirstUnused(old(handles[..])))
      ensures fd >= 0 ==> forall j :: 0 <= j < FS_MAX_OPEN && j != fd - FS_FD_BASE ==> handles[j] == old(handles[j])
      ensures fd == -1 ==> SameOpen(old(handles[..]), handles[..]) && intact == old(intact)
      ensures HasWriter(old(handles[..])) ==> wbuf[..] == old(wbuf[..])
      ensures fd >= 0 ==>
                && handles[fd - FS_FD_BASE].name == name && (handles[fd - FS_FD_BASE].writable <==> WantsWrite(flags))
                && (View(fd) == OpenedView(vol.Contents(), name, flags) ||
                    (vol.disk.faults > old(vol.disk.faults) && Creates(flags) && View(fd) == OpenedView(map[], name, flags)))
                && intact == if WantsWrite(flags) then old(intact) else old(intact)[fd - FS_FD_BASE := View(fd).bytes]
      ensures vol.disk.faults == old(vol.disk.faults) ==> (fd >= 0 <==> CanOpen(vol.Contents(), old(handles[..]), name, flags))
    {
      hide FilesOf, DirOk, Slots, BytesAt, SeesSnapshot, WantsWrite, Creates, Truncates, Appends;
      if |name| >= MAX_NAME {
        return -1;
      }
      var found, e := vol.Lookup(name);
      vol.LookupMeans(name);
      var exists' := found == 0;
      fd := OpenEntry(name, exists', e, flags);
    }

    /** fs_open once the directory has been searched. */
    method OpenEntry(name: seq<byte>, exists': bool, e: Entry, flags: bv32) returns (fd: int)
      requires Valid() && |name| < MAX_NAME && IsCString(name)
      requires exists' ==> Find(vol.Dir(), name) >= 0 && e == vol.Dir()[Find(vol.Dir(), name)]
      modifies this`intact, vol.disk`faults, handles, wbuf
      ensures Valid() && vol.disk.faults >= old(vol.disk.faults)
      ensures fd == -1 || (IsOpen(fd) && fd - FS_FD_BASE == FirstUnused(old(handles[..])))
      ensures fd >= 0 ==> forall j :: 0 <= j < FS_MAX_OPEN && j != fd - FS_FD_BASE ==> handles[j] == old(handles[j])
      ensures fd == -1 ==> SameOpen(old(handles[..]), handles[..]) && intact == old(intact)
      ensures HasWriter(old(handles[..])) ==> wbuf[..] == old(wbuf[..])
      ensures fd >= 0 ==>
                && handles[fd - FS_FD_BASE].name == name && (handles[fd - FS_FD_BASE].writable <==> WantsWrite(flags))
                && View(fd) == OpenedView(Seen(vol.Contents(), name, exists'), name, flags)
                && intact == if WantsWrite(flags) then old(intact) else old(intact)[fd - FS_FD_BASE := View(fd).bytes]
      ensures fd >= 0 ==> exists' || Creates(flags)
      ensures vol.disk.faults == old(vol.disk.faults) ==>
                (fd >= 0 <==> CanOpen(Seen(vol.Contents(), name, exists'), old(handles[..]), name, flags))
    {
      hide FilesOf, DirOk, Slots, BytesAt, SeesSnapshot, WantsWrite, Creates, Truncates, Appends;
      vol.LookupMeans(name);
      var wantWrite := WantsWrite(flags);
      if !exists' && !Creates(flags) {
        return -1;
      }
      if exists' && e.kind == FS_DIR {
        return -1;
      }
      var i := FreeHandle();
      if i == FS_MAX_OPEN {
        return -1;
      }
      if !wantWrite {
        OpenForReading(i, name, exists', e);
        return FS_FD_BASE + i;
      }
      var ok := OpenForWriting(i, name, exists', e, Truncates(flags), Appends(flags));
      fd := if ok then FS_FD_BASE + i else -1;
    }

    /** The first loop of fs_open. */
    method FreeHandle() returns (i: nat)
      requires handles.Length == FS_MAX_OPEN
      ensures i == FirstUnused(handles[..])
    {
      i := 0;
      while i < FS_MAX_OPEN && handles[i].used
        invariant i <= FS_MAX_OPEN && forall j :: 0 <= j < i ==> handles[j].used
      {
        i := i + 1;
      }
    }

    /** fs_open for a read handle: it remembers the extent of the file, or nothing for a new name. */
    method OpenForReading(i: nat, name: seq<byte>, exists': bool, e: Entry)
      requires Valid() && i < FS_MAX_OPEN && !handles[i].used && |name| < MAX_NAME && IsCString(name)
      requires exists' ==> Find(vol.Dir(), name) >= 0 && e == vol.Dir()[Find(vol.Dir(), name)]
      modifies this`intact, handles
      ensures Valid()
      ensures forall j :: 0 <= j < FS_MAX_OPEN && j != i ==> handles[j] == old(handles[j])
      ensures handles[i].used && !handles[i].writable && handles[i].name == name
      ensures View(FS_FD_BASE + i) == ByteFile(if exists' then vol.Contents()[name].bytes else [], 0)
      ensures intact == old(intact)[i := View(FS_FD_BASE + i).bytes]
    {
      hide FilesOf, DirOk, Slots, BytesAt;
      vol.LookupMeans(name);
      var h := CLEARED.(used := true, writable := false, name := name);
      handles[i] := if exists' then h.(kind := e.kind, lba := e.lba, size := e.size) else h;
      intact := intact[i := BytesAt(vol.disk.image, handles[i].lba, handles[i].size)];
    }

    /** fs_open for the writable handle: refused while another one is open, else it loads the buffer. */
    method OpenForWriting(i: nat, name: seq<byte>, exists': bool, e: Entry, truncate: bool, append: bool) returns (ok: bool)
      requires Valid() && i < FS_MAX_OPEN && !handles[i].used && |name| < MAX_NAME && IsCString(name)
      requires exists' ==> Find(vol.Dir(), name) >= 0 && e == vol.Dir()[Find(vol.Dir(), name)]
      modifies vol.disk`faults, handles, wbuf
      ensures Valid() && vol.disk.faults >= old(vol.disk.faults)
      ensures forall j :: 0 <= j < FS_MAX_OPEN && j != i ==> handles[j] == old(handles[j])
      ensures handles[i].used == ok
      ensures HasWriter(old(handles[..])) ==> !ok && wbuf[..] == old(wbuf[..])
      ensures ok ==>
                var bytes := if exists' && !truncate then vol.Contents()[name].bytes else [];
                && |bytes| <= FD_BUF_SIZE && wbuf[..|bytes|] == bytes
                && handles[i] == CLEARED.(used := true, writable := true, kind := FS_FILE, name := name, wlen := |bytes|,
                                          offset := if append then |bytes| else 0)
      ensures !ok && !HasWriter(old(handles[..])) && vol.disk.faults == old(vol.disk.faults) ==>
                exists' && !truncate && |vol.Contents()[name].bytes| > FD_BUF_SIZE
    {
      hide FilesOf, DirOk, Slots, BytesAt, WantsWrite, Creates, Truncates, Appends;
      vol.LookupMeans(name);
      ghost var before := handles[..];
      var h := CLEARED.(used := true, writable := true, name := name);
      var k := 0;
      while k < FS_MAX_OPEN && !(k != i && handles[k].used && handles[k].writable)
        invariant 0 <= k <= FS_MAX_OPEN
        invariant forall j :: 0 <= j < k ==> !(before[j].used && before[j].writable)
        modifies {}
      {
        k := k + 1;
      }
      if k < FS_MAX_OPEN {
        assert before[k].used && before[k].writable;
        handles[i] := h.(used := false);
        return false;
      }
      h := h.(kind := FS_FILE);
      if exists' && !truncate {
        var loaded := -1;
        if e.size <= FD_BUF_SIZE {
          loaded := vol.ReadFile(name, wbuf, FD_BUF_SIZE);
        }
        if loaded < 0 {
          handles[i] := h.(used := false);
          return false;
        }
        h := h.(wlen := e.size);
      }
      handles[i] := h.(offset := if append then h.wlen else 0);
      ok := true;
    }

    /** fs_read_fd. When a sector transfer fails part way the count read so far is returned, but the
        position stays where it was. */
    method ReadFd(fd: int, buf: array<byte>, n: nat) returns (rc: int)
      requires Valid() && n <= buf.Length < 0x8000_0000 && buf != wbuf
      modifies vol.disk`faults, handles, buf
      ensures Valid() && vol.disk.faults >= old(vol.disk.faults)
      ensures !old(IsOpen(fd)) ==> rc == -1 && handles[..] == old(handles[..]) && buf[..] == old(buf[..])
      ensures old(IsOpen(fd)) ==> OtherHandlesSame(old(handles[..]), handles[..], fd) && IsOpen(fd)
      ensures old(IsOpen(fd)) ==> handles[fd - FS_FD_BASE] == old(handles[fd - FS_FD_BASE]).(offset := handles[fd - FS_FD_BASE].offset)
      ensures old(IsOpen(fd)) && rc >= 0 ==> rc <= |ReadOf(old(View(fd)), n)| && buf[..rc] == ReadOf(old(View(fd)), n)[..rc]
      ensures old(IsOpen(fd)) && vol.disk.faults == old(vol.disk.faults) ==>
                rc == |ReadOf(old(View(fd)), n)| && View(fd) == old(View(fd)).(pos := old(View(fd)).pos + rc)
      ensures old(IsOpen(fd)) && vol.disk.faults > old(vol.disk.faults) ==> rc != 0 && View(fd) == old(View(fd))
      ensures rc >= 0 ==> buf[rc..] == old(buf[rc..])
    {
      hide FilesOf, DirOk, Slots, FilesIn, BytesAt, SeesSnapshot, ReadOf, OneWriter;
      var i := FdLookup(fd);
      if i < 0 {
        return -1;
      }
      var h := handles[i];
      var length := if h.writable then h.wlen else h.size;
      var avail := if h.offset < length then length - h.offset else 0;
      var count := Min(n, avail);
      rc := Transfer(i, buf, n, count);
      if rc == count {
        Advance(i, h.offset + count);
      }
    }

    /** The data half of fs_read_fd: from the buffer or from the disk. */
    method Transfer(i: nat, buf: array<byte>, ghost n: nat, count: nat) returns (rc: int)
      requires Valid() && i < FS_MAX_OPEN && handles[i].used && buf != wbuf && count <= buf.Length
      requires var f := View(FS_FD_BASE + i); count == Min(n, if f.pos < |f.bytes| then |f.bytes| - f.pos else 0)
      modifies vol.disk`faults, buf
      ensures Valid() && vol.disk.faults >= old(vol.disk.faults)
      ensures rc == -1 || 0 <= rc <= count == |ReadOf(View(FS_FD_BASE + i), n)|
      ensures rc >= 0 ==> buf[..rc] == ReadOf(View(FS_FD_BASE + i), n)[..rc] && buf[rc..] == old(buf[rc..])
      ensures rc == count <==> vol.disk.faults == old(vol.disk.faults)
      ensures rc == 0 ==> count == 0
    {
      hide FilesOf, DirOk, Slots, FilesIn, BytesAt, SeesSnapshot, ReadOf, OneWriter;
      var h := handles[i];
      ghost var f := View(FS_FD_BASE + i);
      ReadOfCount(f, n, count);
      if count == 0 {
        rc := 0;
      } else if h.writable {
        CopyOut(h.offset, buf, count);
        SliceOfPrefix(wbuf[..], h.wlen, h.offset, h.offset + count);
        rc := count;
      } else {
        rc := StreamExtent(h.lba, h.size, h.offset, buf, count);
        if rc > 0 {
          SliceOfSlice(f.bytes, f.pos, rc, count);
        }
      }
    }

    /** memcpy out of the write buffer. */
    method CopyOut(at: nat, buf: array<byte>, n: nat)
      requires at + n <= wbuf.Length && n <= buf.Length && buf != wbuf
      modifies buf
      ensures buf[..n] == wbuf[at..at + n] && buf[n..] == old(buf[n..])
    {
      forall k | 0 <= k < n {
        buf[k] := wbuf[at + k];
      }
    }

    /** Moves the position of an open handle and nothing else. */
    method Advance(i: nat, offset: u32)
      requires Valid() && i < FS_MAX_OPEN && handles[i].used
      modifies handles
      ensures Valid() && handles[..] == old(handles[..])[i := old(handles[i]).(offset := offset)]
    {
      hide FilesOf, DirOk, Slots, FilesIn, BytesAt;
      handles[i] := handles[i].(offset := offset);
    }

    /** The sector loop of fs_read_fd. */
    method StreamExtent(lba: nat, size: u32, offset: nat, buf: array<byte>, n: nat) returns (rc: int)
      requires vol.Valid() && Roundable(size) && lba + SectorsOf(size) <= |vol.disk.image|
      requires 0 < n && offset + n <= size && n <= buf.Length
      modifies vol.disk`faults, buf
      ensures vol.Valid() && vol.disk.faults >= old(vol.disk.faults)
      ensures rc == -1 || 0 < rc <= n
      ensures rc >= 0 ==> buf[..rc] == BytesAt(vol.disk.image, lba, size)[offset..offset + rc] && buf[rc..] == old(buf[rc..])
      ensures rc == n <==> vol.disk.faults == old(vol.disk.faults)
    {
      hide FilesOf, DirOk, Slots, FilesIn, SectorsOf;
      ghost var bytes := BytesAt(vol.disk.image, lba, size);
      var done := 0;
      while done < n
        invariant 0 <= done <= n && vol.disk.Valid()
        invariant vol.disk.faults == old(vol.disk.faults)
        invariant forall k :: 0 <= k < done ==> buf[k] == bytes[offset + k]
        invariant forall k :: done <= k < buf.Length ==> buf[k] == old(buf[k])
      {
        var pos := offset + done;
        var within := pos % SECTOR_SIZE;
        SectorInExtent(size, pos);
        var ok, sec := vol.disk.ReadSector(lba + pos / SECTOR_SIZE);
        if ok != 0 {
          return if done > 0 then done else -1;
        }
        var take := Min(SECTOR_SIZE - within, n - done);
        forall k | 0 <= k < take {
          buf[done + k] := sec[within + k];
        }
        forall k | done <= k < done + take
          ensures buf[k] == bytes[offset + k]
        {
          SectorOfByte(pos, k - done);
        }
        done := done + take;
      }
      rc := done;
    }

    /** fs_write_fd. */
    method WriteFd(fd: int, data: seq<byte>) returns (rc: int)
      requires Valid() && |data| < TWO32
      modifies handles, wbuf
      ensures Valid()
      ensures rc == -1 || rc == |data|
      ensures rc == -1 ==> handles[..] == old(handles[..]) && wbuf[..] == old(wbuf[..])
      ensures rc >= 0 <==> old(IsOpen(fd)) && old(handles[fd - FS_FD_BASE].writable) && old(View(fd)).pos + |data| <= FD_BUF_SIZE
      ensures rc >= 0 ==> OtherHandlesSame(old(handles[..]), handles[..], fd) && IsOpen(fd)
      ensures rc >= 0 ==> View(fd) == WriteOf(old(View(fd)), data)
      ensures rc >= 0 ==> handles[fd - FS_FD_BASE].name == old(handles[fd - FS_FD_BASE].name) && handles[fd - FS_FD_BASE].writable
    {
      hide FilesOf, DirOk, Slots, FilesIn, BytesAt, WriteOf, SeesSnapshot, OneWriter;
      var i := FdLookup(fd);
      if i < 0 || !handles[i].writable {
        return -1;
      }
      var h := handles[i];
      if |data| > FD_BUF_SIZE || h.offset > FD_BUF_SIZE - |data| {
        return -1;
      }
      var wlen := FillBuffer(h.offset, h.wlen, data);
      SetWritten(i, wlen, h.offset + |data|);
      rc := |data|;
    }

    method SetWritten(i: nat, wlen: u32, offset: u32)
      requires Valid() && i < FS_MAX_OPEN && handles[i].used && handles[i].writable && wlen <= FD_BUF_SIZE
      modifies handles
      ensures Valid()
      ensures handles[..] == old(handles[..])[i := old(handles[i]).(wlen := wlen, offset := offset, dirty := true)]
    {
      hide FilesOf, DirOk, Slots, FilesIn, BytesAt;
      handles[i] := handles[i].(wlen := wlen, offset := offset, dirty := true);
    }

    /** The buffer half of fs_write_fd: zero-fill a gap, copy the data, and give the new length. */
    method FillBuffer(offset: nat, length: nat, data: seq<byte>) returns (wlen: nat)
      requires Valid() && length <= FD_BUF_SIZE && offset + |data| <= FD_BUF_SIZE
      modifies wbuf
      ensures Valid()
      ensures wlen <= FD_BUF_SIZE
      ensures ByteFile(wbuf[..wlen], offset + |data|) == WriteOf(ByteFile(old(wbuf[..length]), offset), data)
    {
      hide FilesOf, DirOk, Slots, FilesIn, BytesAt, SeesSnapshot, OneWriter, WriteOf;
      ghost var f, hs := ByteFile(wbuf[..length], offset), handles[..];
      wlen := length;
      if offset + |data| > wlen {
        if offset > wlen {
          forall k | wlen <= k < offset {
            wbuf[k] := 0;
          }
        }
        wlen := offset + |data|;
      }
      forall k | 0 <= k < |data| {
        wbuf[offset + k] := data[k];
      }
      WriteOfIs(f, data, wbuf[..wlen]);
      assert handles[..] == hs;
    }

    /** fs_seek. The source adds two ints, so the sum has to fit one. */
    method Seek(fd: int, off: int, whence: int) returns (pos: int)
      requires Valid() && -0x8000_0000 <= off < 0x8000_0000
      requires IsOpen(fd) ==> -0x8000_0000 <= SeekBase(handles[fd - FS_FD_BASE], whence) + off < 0x8000_0000
      modifies handles
      ensures Valid()
      ensures pos >= 0 <==> old(IsOpen(fd)) && whence in {SEEK_SET, SEEK_CUR, SEEK_END} &&
                            old(SeekBase(handles[fd - FS_FD_BASE], whence)) + off >= 0
      ensures pos < 0 ==> pos == -1 && handles[..] == old(handles[..])
      ensures pos >= 0 ==> IsOpen(fd) && OtherHandlesSame(old(handles[..]), handles[..], fd)
      ensures pos >= 0 ==> View(fd) == old(View(fd)).(pos := pos)
      ensures pos >= 0 ==> pos == old(SeekBase(handles[fd - FS_FD_BASE], whence)) + off
    {
      hide FilesOf, DirOk, Slots, FilesIn, SeesSnapshot, SeekBase;
      var i := FdLookup(fd);
      if i < 0 {
        return -1;
      }
      if whence != SEEK_SET && whence != SEEK_CUR && whence != SEEK_END {
        return -1;
      }
      pos := SeekBase(handles[i], whence) + off;
      if pos < 0 {
        return -1;
      }
      Advance(i, pos);
    }

    /** The origins of fs_seek are the start, the position and the end, as long as those fit an int. */
    lemma SeekOrigins(fd: int)
      requires Valid() && IsOpen(fd) && |View(fd).bytes| < 0x8000_0000 && View(fd).pos < 0x8000_0000
      ensures SeekBase(handles[fd - FS_FD_BASE], SEEK_SET) == 0
      ensures SeekBase(handles[fd - FS_FD_BASE], SEEK_CUR) == View(fd).pos
      ensures SeekBase(handles[fd - FS_FD_BASE], SEEK_END) == |View(fd).bytes|
    {
    }

    /** fs_write while files are open (it is also a system call of its own). */
    method WriteFile(name: seq<byte>, kind: byte, data: seq<byte>) returns (rc: int)
      requires Valid() && IsCString(name) && Roundable(|data|)
      modifies this`intact, vol.disk
      ensures Valid() && handles[..] == old(handles[..]) && wbuf[..] == old(wbuf[..])
      ensures vol.disk.faults >= old(vol.disk.faults)
      ensures rc == 0 || rc == -1
      ensures rc == 0 ==> if name == [] then vol.Contents() == old(vol.Contents())
                          else Wrote(old(vol.Contents()), vol.Contents(), name, kind, data)
      ensures rc != 0 ==> Failed(old(vol.Contents()), vol.Contents(), name, kind, data)
      ensures vol.disk.faults == old(vol.disk.faults) ==>
                (rc == 0 <==> Accepts(old(vol.Contents()), name) && SlotFor(old(vol.Dir()), name) >= 0)
      ensures forall i :: i in old(intact) && handles[i].name != name && !Ancestor(handles[i].name, name) ==>
                i in intact && intact[i] == old(intact[i])
    {
      hide FilesOf, DirOk, Slots, FilesIn, BytesAt, WriteAll, Recorded, Ancestor;
      ghost var image, m := vol.disk.image, vol.Contents();
      rc := vol.Write(name, kind, data);
      intact := map i | i in intact && handles[i].name != name && !Ancestor(handles[i].name, name) :: intact[i];
      forall i | i in intact
        ensures SeesSnapshot(handles[i], intact[i], vol.disk.image, vol.Dir())
      {
        if rc != 0 {
          FailedIsReachable(m, vol.Contents(), name, kind, data);
        }
        ReachableElsewhere(m, vol.Contents(), name, kind, data, handles[i].name);
        SnapshotKept(handles[i], intact[i], image, vol.disk.image, vol.geo);
      }
    }

    /** fs_unlink. */
    method Unlink(name: seq<byte>) returns (rc: int)
      requires Valid()
      modifies this`intact, vol.disk
      ensures Valid() && handles[..] == old(handles[..]) && wbuf[..] == old(wbuf[..])
      ensures vol.disk.faults >= old(vol.disk.faults)
      ensures rc == 0 ==> name in old(vol.Contents()) && vol.Contents() == old(vol.Contents()) - {name}
      ensures rc != 0 ==> rc == -1 && (vol.Contents() == old(vol.Contents()) ||
                          (vol.disk.faults > old(vol.disk.faults) && name in old(vol.Contents())
                           && vol.Contents() == old(vol.Contents()) - {name}))
      ensures rc != 0 ==> name !in old(vol.Contents()) || vol.disk.faults > old(vol.disk.faults)
      ensures forall i :: i in old(intact) && handles[i].name != name ==> i in intact && intact[i] == old(intact[i])
    {
      hide FilesOf, DirOk, Slots, FilesIn, BytesAt, KeepsEntry, SeesSnapshot;
      ghost var image, dir, m := vol.disk.image, vol.Dir(), vol.Contents();
      rc := vol.Delete(name);
      intact := map i | i in intact && handles[i].name != name :: intact[i];
      forall i | i in intact
        ensures SeesSnapshot(handles[i], intact[i], vol.disk.image, vol.Dir())
      {
        assert KeepsEntry(dir, vol.Dir(), handles[i].name) && SameAt(m, vol.Contents(), handles[i].name);
        SnapshotKept(handles[i], intact[i], image, vol.disk.image, vol.geo);
      }
    }

    /** fs_close: a writable handle writes its whole buffer back; the handle is released either way. */
    method Close(fd: int) returns (rc: int)
      requires Valid()
      modifies this`intact, vol.disk, handles
      ensures Valid() && wbuf[..] == old(wbuf[..]) && vol.disk.faults >= old(vol.disk.faults)
      ensures rc == 0 || rc == -1
      ensures !old(IsOpen(fd)) ==> rc == -1 && handles[..] == old(handles[..]) && intact == old(intact)
      ensures old(IsOpen(fd)) ==> !IsOpen(fd) && OtherHandlesSame(old(handles[..]), handles[..], fd)
      ensures !(old(IsOpen(fd)) && old(handles[fd - FS_FD_BASE].writable)) ==>
                vol.Contents() == old(vol.Contents()) && vol.Dir() == old(vol.Dir())
      ensures old(IsOpen(fd)) && !old(handles[fd - FS_FD_BASE].writable) ==> rc == 0
      ensures old(IsOpen(fd)) && old(handles[fd - FS_FD_BASE].writable) ==>
                var name := old(handles[fd - FS_FD_BASE].name);
                && (rc == 0 ==> if name == [] then vol.Contents() == old(vol.Contents())
                                else Wrote(old(vol.Contents()), vol.Contents(), name, FS_FILE, old(View(fd)).bytes))
                && (rc != 0 ==> Failed(old(vol.Contents()), vol.Contents(), name, FS_FILE, old(View(fd)).bytes))
                && forall i :: i in old(intact) && handles[i].name != name && !Ancestor(handles[i].name, name) ==>
                     i in intact && intact[i] == old(intact[i])
      ensures old(IsOpen(fd)) && !old(handles[fd - FS_FD_BASE].writable) ==> intact == old(intact) - {fd - FS_FD_BASE}
      ensures old(IsOpen(fd)) && old(handles[fd - FS_FD_BASE].writable) && rc == 0 && old(handles[fd - FS_FD_BASE].name) != [] ==>
                var name := old(handles[fd - FS_FD_BASE].name);
                name in vol.Contents() && vol.Contents()[name] == File(FS_FILE, old(View(fd)).bytes)
      ensures old(IsOpen(fd)) && old(handles[fd - FS_FD_BASE].writable) && vol.disk.faults == old(vol.disk.faults) ==>
                (rc == 0 <==> CanStore(old(vol.Contents()), old(vol.Dir()), old(handles[fd - FS_FD_BASE].name)))
    {
      hide FilesOf, DirOk, Slots, FilesIn, BytesAt, Wrote, Failed, Ancestor, Accepts, SlotFor;
      var i := FdLookup(fd);
      if i < 0 {
        return -1;
      }
      var h := handles[i];
      rc := 0;
      if h.writable {
        rc := WriteFile(h.name, h.kind, wbuf[..h.wlen]);
        if rc == 0 && h.name != [] {
          WroteEffect(old(vol.Contents()), vol.Contents(), h.name, FS_FILE, old(View(fd)).bytes, h.name);
        }
      }
      Release(i);
    }

    /** Two writable handles are never open together, so the one buffer has one owner. */
    lemma AtMostOneWriter(fd: int, other: int)
      requires Valid() && IsOpen(fd) && IsOpen(other)
      requires handles[fd - FS_FD_BASE].writable && handles[other - FS_FD_BASE].writable
      ensures fd == other
    {
    }

    /** While its name is left alone an open read handle denotes the bytes it was opened on. */
    lemma IntactHandleReadsSnapshot(i: int)
      requires Valid() && i in intact
      ensures IsOpen(FS_FD_BASE + i) && View(FS_FD_BASE + i).bytes == intact[i]
    {
    }

    /** fs_close_all. */
    method CloseAll()
      requires Valid()
      modifies this`intact, vol.disk, handles
      ensures Valid() && wbuf[..] == old(wbuf[..]) && vol.disk.faults >= old(vol.disk.faults)
      ensures forall j :: 0 <= j < FS_MAX_OPEN ==> !handles[j].used
      ensures !HasWriter(old(handles[..])) ==> vol.Contents() == old(vol.Contents())
      ensures forall w :: 0 <= w < FS_MAX_OPEN && old(handles[w]).used && old(handles[w]).writable ==>
                Reachable(old(vol.Contents()), vol.Contents(), old(handles[w]).name, FS_FILE, wbuf[..old(handles[w]).wlen])
      ensures vol.disk.faults == old(vol.disk.faults) ==>
                forall w :: 0 <= w < FS_MAX_OPEN && NamedWriter(old(handles[w])) &&
                            CanStore(old(vol.Contents()), old(vol.Dir()), old(handles[w]).name) ==>
                  Wrote(old(vol.Contents()), vol.Contents(), old(handles[w]).name, FS_FILE, wbuf[..old(handles[w]).wlen])
    {
      hide FilesOf, DirOk, Slots, FilesIn, BytesAt, Wrote, Failed, TornWrite, Ancestor, SeesSnapshot, CanStore;
      ghost var before, m, bytes, dir := handles[..], vol.Contents(), wbuf[..], vol.Dir();
      var i := 0;
      while i < FS_MAX_OPEN
        invariant 0 <= i <= FS_MAX_OPEN && Valid() && wbuf[..] == bytes
        invariant vol.disk.faults >= old(vol.disk.faults)
        invariant forall j :: 0 <= j < i ==> !handles[j].used
        invariant forall j :: i <= j < FS_MAX_OPEN ==> handles[j] == before[j]
        invariant (forall w :: 0 <= w < i ==> !(before[w].used && before[w].writable)) ==> vol.Contents() == m && vol.Dir() == dir
        invariant vol.disk.faults == old(vol.disk.faults) ==>
                    forall w :: 0 <= w < i && NamedWriter(before[w]) && CanStore(m, dir, before[w].name) ==>
                      before[w].wlen <= |bytes| && Wrote(m, vol.Contents(), before[w].name, FS_FILE, bytes[..before[w].wlen])
        invariant forall w :: 0 <= w < i && before[w].used && before[w].writable ==>
                    before[w].wlen <= |bytes| && Reachable(m, vol.Contents(), before[w].name, FS_FILE, bytes[..before[w].wlen])
      {
        if handles[i].used {
          assert before[i].writable ==> wbuf[..before[i].wlen] == bytes[..before[i].wlen];
          var rc := Close(FS_FD_BASE + i);
          if rc != 0 {
            FailedIsReachable(m, vol.Contents(), before[i].name, FS_FILE, bytes[..before[i].wlen]);
          }
        }
        i := i + 1;
      }
    }

    method Release(i: nat)
      requires Valid() && i < FS_MAX_OPEN && handles[i].used
      modifies this`intact, handles
      ensures Valid() && handles[..] == old(handles[..])[i := old(handles[i]).(used := false)]
      ensures intact == old(intact) - {i}
    {
      hide FilesOf, DirOk, Slots, FilesIn, BytesAt;
      handles[i] := handles[i].(used := false);
      intact := intact - {i};
    }
  }

  lemma ReadOfCount(f: ByteFile, n: nat, count: nat)
    requires count == Min(n, if f.pos < |f.bytes| then |f.bytes| - f.pos else 0)
    ensures |ReadOf(f, n)| == count && (count > 0 ==> f.pos + count <= |f.bytes| && ReadOf(f, n) == f.bytes[f.pos..f.pos + count])
  {
  }

  lemma SectorInExtent(size: nat, pos: nat)
    requires Roundable(size) && pos < size
    ensures pos / SECTOR_SIZE < SectorsOf(size)
  {
  }

  lemma SliceOfPrefix(s: seq<byte>, n: nat, from: nat, to: nat)
    requires from <= to <= n <= |s|
    ensures s[..n][from..to] == s[from..to]
  {
  }

  lemma SliceOfSlice(s: seq<byte>, from: nat, n: nat, count: nat)
    requires n <= count && from + count <= |s|
    ensures s[from..from + count][..n] == s[from..from + n]
  {
  }

  /** Bytes `at` and `at + k` lie in the same sector while `k` does not run past its end. */
  lemma SectorOfByte(at: nat, k: nat)
    requires at % SECTOR_SIZE + k < SECTOR_SIZE
    ensures (at + k) / SECTOR_SIZE == at / SECTOR_SIZE && (at + k) % SECTOR_SIZE == at % SECTOR_SIZE + k
  {
  }

  /** fs_write can store the name: it and its ancestors fit, and the directory has a slot. */
  predicate CanStore(m: Files, slots: seq<Entry>, name: seq<byte>) {
    Accepts(m, name) && SlotFor(slots, name) >= 0
  }

  /** A writable handle of a file with a name. */
  predicate NamedWriter(h: Handle) {
    h.used && h.writable && h.name != []
  }

  /** Only the handle behind `fd` changed. */
  predicate OtherHandlesSame(before: seq<Handle>, after: seq<Handle>, fd: int) {
    |before| == |after| && forall i :: 0 <= i < |before| && i != fd - FS_FD_BASE ==> after[i] == before[i]
  }

  /** Index of the first unused handle, or FS_MAX_OPEN. */
  function FirstUnused(hs: seq<Handle>): (i: nat)
    ensures i <= |hs| && (i < |hs| ==> !hs[i].used) && forall j :: 0 <= j < i ==> hs[j].used
  {
    if hs == [] || !hs[0].used then 0 else 1 + FirstUnused(hs[1..])
  }

  /** The same handles are open and unchanged. */
  predicate SameOpen(before: seq<Handle>, after: seq<Handle>) {
    |before| == |after| && forall i :: 0 <= i < |before| ==>
      (before[i].used <==> after[i].used) && (before[i].used ==> after[i] == before[i])
  }

  predicate HasWriter(hs: seq<Handle>) {
    exists i :: 0 <= i < |hs| && hs[i].used && hs[i].writable
  }

  /** The files as the search saw them: a name it missed counts as absent. */
  function Seen(m: Files, name: seq<byte>, found: bool): Files {
    if found then m else m - {name}
  }

  /** When open succeeds on a working disk. */
  predicate CanOpen(m: Files, hs: seq<Handle>, name: seq<byte>, flags: bv32) {
    && |name| < MAX_NAME
    && (name in m || Creates(flags))
    && (name in m ==> m[name].kind != FS_DIR)
    && FirstUnused(hs) < |hs|
    && (WantsWrite(flags) ==>
          !HasWriter(hs) && (name in m && !Truncates(flags) ==> |m[name].bytes| <= FD_BUF_SIZE))
  }

  /** The byte file a successful open starts from. */
  function OpenedView(m: Files, name: seq<byte>, flags: bv32): ByteFile {
    var keep := name in m && (!WantsWrite(flags) || !Truncates(flags));
    var bytes := if keep then m[name].bytes else [];
    ByteFile(bytes, if WantsWrite(flags) && Appends(flags) then |bytes| else 0)
  }

  ghost predicate HandleOk(h: Handle, capacity: nat) {
    && |h.name| < MAX_NAME && IsCString(h.name)
    && (if h.writable then h.wlen <= FD_BUF_SIZE && h.kind == FS_FILE
        else Roundable(h.size) && h.lba + SectorsOf(h.size) <= capacity)
  }

  /** At most one used handle is writable. */
  ghost predicate OneWriter(hs: seq<Handle>) {
    forall i, j :: 0 <= i < |hs| && 0 <= j < |hs| && hs[i].used && hs[i].writable && hs[j].used && hs[j].writable ==> i == j
  }

  ghost function ViewOf(h: Handle, image: Image, wbuf: seq<byte>): ByteFile
    requires HandleOk(h, |image|) && |wbuf| == FD_BUF_SIZE
  {
    if h.writable then ByteFile(wbuf[..h.wlen], h.offset) else ByteFile(BytesAt(image, h.lba, h.size), h.offset)
  }

  /** A read handle still stands on the sectors of the file it was opened on. */
  ghost predicate SeesSnapshot(h: Handle, snapshot: seq<byte>, image: Image, slots: seq<Entry>) {
    && h.used && !h.writable && HandleOk(h, |image|)
    && BytesAt(image, h.lba, h.size) == snapshot
    && (h.size == 0 || (Find(slots, h.name) >= 0 &&
          slots[Find(slots, h.name)].lba == h.lba && slots[Find(slots, h.name)].size == h.size))
  }

  /** `base` in fs_seek, with the conversion of the unsigned fields to int. */
  function SeekBase(h: Handle, whence: int): int {
    if whence == SEEK_SET then 0
    else if whence == SEEK_CUR then ToInt32(h.offset)
    else ToInt32(if h.writable then h.wlen else h.size)
  }

  lemma WriteOfIs(f: ByteFile, data: seq<byte>, bytes: seq<byte>)
    requires |bytes| == if |f.bytes| > f.pos + |data| then |f.bytes| else f.pos + |data|
    requires forall k :: 0 <= k < |bytes| ==>
               bytes[k] == if f.pos <= k < f.pos + |data| then data[k - f.pos] else if k < |f.bytes| then f.bytes[k] else 0
    ensures WriteOf(f, data) == ByteFile(bytes, f.pos + |data|)
  {
  }

  /** A read handle keeps its snapshot when its name keeps its entry and its bytes. */
  lemma SnapshotKept(h: Handle, snapshot: seq<byte>, a: Image, b: Image, g: Geometry)
    requires ImageOk(a, g) && ImageOk(b, g) && |a| == |b| && SeesSnapshot(h, snapshot, a, Slots(a, g))
    requires KeepsEntry(Slots(a, g), Slots(b, g), h.name) && SameAt(FilesOf(a, g), FilesOf(b, g), h.name)
    ensures SeesSnapshot(h, snapshot, b, Slots(b, g))
  {
    if h.size > 0 {
      FilesInAt(a, Slots(a, g), g, Find(Slots(a, g), h.name));
      FilesInAt(b, Slots(b, g), g, Find(Slots(b, g), h.name));
      assert FileAt(a, Slots(a, g)[Find(Slots(a, g), h.name)]) == FileAt(b, Slots(b, g)[Find(Slots(b, g), h.name)]);
    }
  }
}
