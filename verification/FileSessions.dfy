/** Whole sessions of the handle layer: a file opened, written in pieces and closed, and a file opened, read and closed. */
module FileSessions {
  import opened Bytes
  import opened Directory
  import opened FsSpec
  import opened OpenFileTable

  /** The bytes of the pieces, one after the other. */
  function Joined(pieces: seq<seq<byte>>): seq<byte> {
    if pieces == [] then [] else Joined(pieces[..|pieces| - 1]) + pieces[|pieces| - 1]
  }

  lemma {:induction false} JoinedGrows(pieces: seq<seq<byte>>, n: nat)
    requires n <= |pieces|
    ensures |Joined(pieces[..n])| <= |Joined(pieces)|
  {
    if n == |pieces| {
      assert pieces[..n] == pieces;
    } else {
      JoinedGrows(pieces[..|pieces| - 1], n);
      assert pieces[..|pieces| - 1][..n] == pieces[..n];
    }
  }

  lemma JoinedNext(pieces: seq<seq<byte>>, n: nat)
    requires n < |pieces|
    ensures Joined(pieces[..n + 1]) == Joined(pieces[..n]) + pieces[n]
  {
    assert pieces[..n + 1][..n] == pieces[..n];
  }

  /** What is stored under the name, nothing if there is no such name. */
  function BytesOf(m: Files, name: seq<byte>): seq<byte> {
    if name in m then m[name].bytes else []
  }

  /** The bytes of `data` laid over the front of `before`. */
  function Over(before: seq<byte>, data: seq<byte>): seq<byte> {
    if |data| <= |before| then data + before[|data|..] else data
  }

  /** What a file of bytes `before` becomes when `data` is written to it in one session. */
  function Rewritten(before: seq<byte>, truncate: bool, append: bool, data: seq<byte>): seq<byte> {
    if truncate then data else if append then before + data else Over(before, data)
  }

  lemma SessionOn(before: seq<byte>, truncate: bool, append: bool, data: seq<byte>)
    ensures var kept := if truncate then [] else before;
            WriteOf(ByteFile(kept, if append then |kept| else 0), data).bytes == Rewritten(before, truncate, append, data)
  {
    var kept := if truncate then [] else before;
    var f := ByteFile(kept, if append then |kept| else 0);
    assert Padded(f) == kept && kept[|kept|..] == [];
  }

  /** The flag bits of open, and what they mean for the file a session leaves: bit 4 truncates, bit 5 appends. */
  lemma SessionLeaves(m: Files, name: seq<byte>, flags: bv32, data: seq<byte>)
    requires flags & 0x6 != 0
    ensures WriteOf(OpenedView(m, name, flags), data).bytes == Rewritten(BytesOf(m, name), flags & 0x10 != 0, flags & 0x20 != 0, data)
    ensures OpenedView(m, name, flags).pos == if flags & 0x20 != 0 && flags & 0x10 == 0 then |BytesOf(m, name)| else 0
    ensures OpenedView(m, name, flags).pos <= |OpenedView(m, name, flags).bytes|
  {
    hide WantsWrite, Truncates, Appends, WriteOf, Rewritten;
    FlagBits(flags);
    SessionOn(BytesOf(m, name), Truncates(flags), Appends(flags), data);
  }

  /** Opening for writing fails exactly on these grounds: the name is too long, missing and not to be created, or a directory;
      no handle is free or a writer is open; or the bytes to keep exceed the buffer. */
  lemma OpensIff(m: Files, hs: seq<Handle>, name: seq<byte>, flags: bv32)
    ensures CanOpen(m, hs, name, flags) <==>
              && |name| <= 22 && (name in m || flags & 0x8 != 0) && (name in m ==> m[name].kind != FS_DIR)
              && (exists i :: 0 <= i < |hs| && !hs[i].used)
              && (flags & 0x6 != 0 ==> forall i :: 0 <= i < |hs| ==> !(hs[i].used && hs[i].writable))
              && (flags & 0x6 != 0 && flags & 0x10 == 0 ==> |BytesOf(m, name)| <= 65536)
  {
    hide Creates, Truncates, WantsWrite;
    FlagBits(flags);
    if FirstUnused(hs) < |hs| {
      assert !hs[FirstUnused(hs)].used;
    }
  }

  lemma FlagBits(flags: bv32)
    ensures WantsWrite(flags) <==> flags & 0x6 != 0
    ensures Creates(flags) <==> flags & 0x8 != 0
    ensures Truncates(flags) <==> flags & 0x10 != 0
    ensures Appends(flags) <==> flags & 0x20 != 0
  {
    hide WantsWrite, Creates, Truncates, Appends;
    WriteBits(flags);
    CreateBit(flags);
    TruncateBit(flags);
    AppendBit(flags);
  }

  lemma WriteBits(flags: bv32)
    ensures WantsWrite(flags) <==> flags & 0x6 != 0
  {
  }

  lemma CreateBit(flags: bv32)
    ensures Creates(flags) <==> flags & 0x8 != 0
  {
  }

  lemma TruncateBit(flags: bv32)
    ensures Truncates(flags) <==> flags & 0x10 != 0
  {
  }

  lemma AppendBit(flags: bv32)
    ensures Appends(flags) <==> flags & 0x20 != 0
  {
  }

  /** The session stores all of its data: the file can be opened, the data fits behind the position, and fs_write has room. */
  predicate CanSave(m: Files, slots: seq<Entry>, hs: seq<Handle>, name: seq<byte>, flags: bv32, count: nat) {
    && CanOpen(m, hs, name, flags) && CanStore(m, slots, name)
    && (if flags & 0x20 != 0 && flags & 0x10 == 0 then |BytesOf(m, name)| else 0) + count <= 65536
  }

  /** Any writes to one open handle are one write of all their bytes, and all go through exactly when the last one fits. */
  method PutAll(files: OpenFiles, fd: int, pieces: seq<seq<byte>>) returns (all: bool)
    requires files.Valid() && files.IsOpen(fd) && files.handles[fd - FS_FD_BASE].writable && files.View(fd).pos <= |files.View(fd).bytes|
    requires forall k :: 0 <= k < |pieces| ==> |pieces[k]| < TWO32
    modifies files.handles, files.wbuf
    ensures files.Valid() && files.IsOpen(fd)
    ensures files.handles[fd - FS_FD_BASE].writable && files.handles[fd - FS_FD_BASE].name == old(files.handles[fd - FS_FD_BASE].name)
    ensures all <==> old(files.View(fd)).pos + |Joined(pieces)| <= 65536
    ensures all ==> files.View(fd) == WriteOf(old(files.View(fd)), Joined(pieces))
  {
    hide FilesOf, Slots, DirOk, WriteOf, OneWriter, SeesSnapshot, BytesAt;
    ghost var began := files.View(fd);
    NothingWritten(began);
    var k := 0;
    while k < |pieces|
      invariant 0 <= k <= |pieces| && files.Valid() && files.IsOpen(fd)
      invariant files.handles[fd - FS_FD_BASE].name == old(files.handles[fd - FS_FD_BASE].name) && files.handles[fd - FS_FD_BASE].writable
      invariant files.View(fd) == WriteOf(began, Joined(pieces[..k])) && began.pos + |Joined(pieces[..k])| <= 65536
    {
      var put := files.WriteFd(fd, pieces[k]);
      JoinedNext(pieces, k);
      if put < 0 {
        JoinedGrows(pieces, k + 1);
        return false;
      }
      WriteOfWriteOf(began, Joined(pieces[..k]), pieces[k]);
      k := k + 1;
    }
    assert pieces[..k] == pieces;
    all := true;
  }

  lemma NothingWritten(f: ByteFile)
    requires f.pos <= |f.bytes|
    ensures WriteOf(f, []) == f
  {
  }

  lemma ElsewhereKept(m: Files, m': Files, name: seq<byte>, bytes: seq<byte>)
    requires Wrote(m, m', name, FS_FILE, bytes) && name != []
    ensures forall n :: n != name && !Ancestor(n, name) ==> SameAt(m, m', n)
  {
    hide Wrote, Ancestor, SameAt;
    forall n | n != name && !Ancestor(n, name)
      ensures SameAt(m, m', n)
    {
      WroteEffect(m, m', name, FS_FILE, bytes, n);
    }
  }

  /** open, any writes, close: with no transfer error the session stores everything exactly when it can, and then the file is the
      data, the old bytes and the data, or the data over the front of the old bytes, as the flags say. */
  method Save(files: OpenFiles, name: seq<byte>, flags: bv32, pieces: seq<seq<byte>>) returns (rc: int)
    requires files.Valid() && IsCString(name) && name != [] && flags & 0x6 != 0
    requires forall k :: 0 <= k < |pieces| ==> |pieces[k]| < TWO32
    modifies files`intact, files.vol.disk, files.handles, files.wbuf
    ensures files.Valid() && files.vol.disk.faults >= old(files.vol.disk.faults) && (rc == 0 || rc == -1)
    ensures files.vol.disk.faults == old(files.vol.disk.faults) ==>
              (rc == 0 <==> CanSave(old(files.vol.Contents()), old(files.vol.Dir()), old(files.handles[..]), name, flags, |Joined(pieces)|))
    ensures files.vol.disk.faults == old(files.vol.disk.faults) && rc == 0 ==>
              && name in files.vol.Contents()
              && files.vol.Contents()[name] == File(FS_FILE,
                   Rewritten(BytesOf(old(files.vol.Contents()), name), flags & 0x10 != 0, flags & 0x20 != 0, Joined(pieces)))
    ensures rc == 0 ==> forall n :: n != name && !Ancestor(n, name) ==> SameAt(old(files.vol.Contents()), files.vol.Contents(), n)
  {
    hide FilesOf, Slots, DirOk, CanOpen, OpenedView, WriteOf, CanStore, Wrote, Failed, Ancestor, SameAt, Rewritten, BytesOf;
    hide WantsWrite, Creates, Truncates, Appends;
    ghost var m := files.vol.Contents();
    SessionLeaves(m, name, flags, Joined(pieces));
    SessionLeaves(map[], name, flags, Joined(pieces));
    FlagBits(flags);
    var fd := files.Open(name, flags);
    if fd < 0 {
      return -1;
    }
    var all := PutAll(files, fd, pieces);
    ghost var bytes := files.View(fd).bytes;
    rc := files.Close(fd);
    if rc == 0 {
      ElsewhereKept(m, files.vol.Contents(), name, bytes);
    }
    if !all {
      rc := -1;
    }
  }

  /** open to read, read, close: the front of the stored file, or -1 when it cannot be opened; the files stay. */
  method Fetch(files: OpenFiles, name: seq<byte>, buf: array<byte>, n: nat) returns (rc: int)
    requires files.Valid() && IsCString(name) && n <= buf.Length < 0x8000_0000 && buf != files.wbuf
    modifies files`intact, files.vol.disk, files.handles, files.wbuf, buf
    ensures files.Valid() && files.vol.disk.faults >= old(files.vol.disk.faults)
    ensures files.vol.Contents() == old(files.vol.Contents())
    ensures files.vol.disk.faults == old(files.vol.disk.faults) ==>
              (rc >= 0 <==> CanOpen(old(files.vol.Contents()), old(files.handles[..]), name, 0x1))
    ensures files.vol.disk.faults == old(files.vol.disk.faults) && rc >= 0 ==>
              && name in files.vol.Contents() && rc == Min(n, |files.vol.Contents()[name].bytes|)
              && buf[..rc] == files.vol.Contents()[name].bytes[..rc]
  {
    hide FilesOf, Slots, DirOk, CanOpen, OpenedView, SeesSnapshot, BytesAt, WantsWrite, Creates, Truncates, Appends;
    ghost var m := files.vol.Contents();
    FlagBits(0x1);
    ReadsFromStart(m, files.handles[..], name, n);
    rc := files.Open(name, 0x1);
    if rc < 0 {
      return;
    }
    var fd := rc;
    rc := files.ReadFd(fd, buf, n);
    var closed := files.Close(fd);
  }

  lemma ReadsFromStart(m: Files, hs: seq<Handle>, name: seq<byte>, n: nat)
    ensures name in m ==> OpenedView(m, name, 0x1) == ByteFile(m[name].bytes, 0)
    ensures name in m ==> ReadOf(ByteFile(m[name].bytes, 0), n) == m[name].bytes[..Min(n, |m[name].bytes|)]
    ensures CanOpen(m, hs, name, 0x1) ==> name in m
  {
    hide WantsWrite, Creates, Truncates, Appends;
    FlagBits(0x1);
  }
}
