/** memory.c's pager: the kernel's identity map at boot, then create, attach, fault, detach and destroy. */
module KernelPager {
  import opened Bytes
  import opened Frames
  import opened Options
  import opened Paging
  import opened BootMap
  import opened UserMemory

  class Pager {
    const frames: FrameAllocator
    const ram: array<Frame>
    /** The frame of the static page_dir. */
    const kdir: nat
    var curDir: u32
    var cr3: u32
    var brk: u32
    var faultCount: u32
    /** Frames in use when boot was over; they are never freed. */
    ghost var boot: set<nat>
    /** What each frame taken since then is used for. */
    ghost var owner: Owners

    /** Physical memory and the bitmap are different objects here: the bitmap's own frames are never in the pool. */
    ghost predicate Separate() {
      frames.bitmap as object != ram as object
    }

    ghost predicate Valid()
      reads this, ram, frames, frames.bitmap
    {
      && frames.Valid() && Separate() && kdir * PAGE_SIZE < LOW_END
      && SpacesOk(ram[..], kdir, frames.nframes, boot, owner)
      && frames.Free() == Pool(frames.nframes, boot) - owner.Keys
      && CpuOk(owner, kdir, cr3, curDir)
    }

    /** Before paging_init: nothing mapped, no process. The page directory lies in the kernel's low megabyte. */
    constructor (f: FrameAllocator, memory: array<Frame>, dir: nat)
      requires dir * PAGE_SIZE < LOW_END && dir < memory.Length
      ensures frames == f && ram == memory && kdir == dir && curDir == 0 && owner == map[] && cr3 == dir * PAGE_SIZE
    {
      frames, ram, kdir := f, memory, dir;
      curDir, brk, faultCount := 0, 0, 0;
      cr3 := dir * PAGE_SIZE;
      boot, owner := {}, map[];
    }

    // -------------------------------------------------------------- boot

    /** The state while paging_init runs. */
    ghost predicate Booting()
      reads this, ram, frames, frames.bitmap
    {
      && frames.Valid() && Separate() && kdir * PAGE_SIZE < LOW_END
      && BootOk(ram[..], kdir, frames.Free()) && 0 !in frames.Free() && frames.nframes <= ram.Length
    }

    /** One page of map_range: the table if it is missing, then the entry. False when no frame is left for the table. */
    method MapOne(v: u32) returns (ok: bool)
      requires Booting() && v % PAGE_SIZE == 0 && v / 0x40_0000 != USER_PDE
      modifies ram, frames`framesFree, frames.bitmap
      ensures Booting() && frames.Free() <= old(frames.Free()) && MapsMore(old(ram[..]), ram[..], kdir)
      ensures ok ==> KernelMaps(ram[..], kdir, v / PAGE_SIZE)
      ensures !ok ==> frames.Free() == {}
    {
      hide FreeIn, BootOk, MapsMore, KernelMaps;
      ghost var start, p := ram[..], v / PAGE_SIZE;
      var pdi := v / 0x40_0000;
      assert p / ENTRIES == pdi;
      KdirInRam();
      if !Present(ram[kdir][pdi]) {
        ok := NewTable(pdi);
        if !ok {
          return;
        }
      } else {
        ClearUserSame(start, kdir, frames.Free(), pdi);
        assert ram[kdir][pdi := ram[kdir][pdi]] == ram[kdir];
        ram[kdir] := ram[kdir][pdi := ClearUser(ram[kdir][pdi])];
        assert ram[..] == start;
        MapsMoreRefl(start, kdir);
      }
      ghost var mid := ram[..];
      SetEntry(mid, kdir, frames.Free(), p);
      var t := FrameNo(ram[kdir][pdi]);
      ram[t] := ram[t][v / PAGE_SIZE % ENTRIES := v + 3];
      assert ram[..] == mid[t := mid[t][p % ENTRIES := KernelEntry(p)]];
      MapsMoreTrans(start, mid, ram[..], kdir);
      ok := true;
    }

    lemma KdirInRam()
      requires Booting()
      ensures kdir < ram.Length && kdir !in frames.Free()
    {
    }

    /** The allocation in map_range. */
    method NewTable(pdi: nat) returns (ok: bool)
      requires Booting() && pdi < ENTRIES && pdi != USER_PDE && kdir < ram.Length && !Present(ram[kdir][pdi])
      modifies ram, frames`framesFree, frames.bitmap
      ensures Booting() && frames.Free() <= old(frames.Free()) && MapsMore(old(ram[..]), ram[..], kdir)
      ensures ok ==> Present(ram[kdir][pdi])
      ensures !ok ==> frames.Free() == {}
    {
      hide FreeIn, BootOk, MapsMore, KernelMaps;
      ghost var start: Ram, free: set<nat> := ram[..], frames.Free();
      KdirInRam();
      MapsMoreRefl(start, kdir);
      var pt := frames.Alloc();
      assert ram[..] == start;
      if pt == 0 {
        return false;
      }
      ghost var f := pt / PAGE_SIZE;
      AddTable(start, kdir, free, pdi, f);
      ram[pt / PAGE_SIZE] := Zeros();
      assert ram[..] == start[f := Zeros()];
      ram[kdir] := ram[kdir][pdi := pt + 3];
      assert ram[..] == start[f := Zeros()][kdir := start[kdir][pdi := KernelEntry(f)]];
      ok := true;
    }

    /** map_range for supervisor pages, the only kind it is asked for. It stops silently when frames run out. */
    method MapRange(from: u32, limit: u32)
      requires Booting() && limit <= 0xFFFF_F000
      requires forall p: nat :: from / PAGE_SIZE <= p && p * PAGE_SIZE < limit ==> !InWindow(p)
      modifies ram, frames`framesFree, frames.bitmap
      ensures Booting() && frames.Free() <= old(frames.Free()) && MapsMore(old(ram[..]), ram[..], kdir)
      ensures frames.Free() != {} ==> MapsPages(ram[..], kdir, from, limit)
    {
      hide FreeIn, BootOk, KernelMaps;
      ghost var start := ram[..];
      KdirInRam();
      MapsMoreRefl(start, kdir);
      var v: int := from / PAGE_SIZE * PAGE_SIZE;
      while v < limit
        invariant v % PAGE_SIZE == 0 && from / PAGE_SIZE * PAGE_SIZE <= v
        invariant Booting() && frames.Free() <= old(frames.Free()) && MapsMore(start, ram[..], kdir)
        invariant forall p: nat :: from / PAGE_SIZE <= p && p * PAGE_SIZE < v ==> p < FRAME_LIMIT && KernelMaps(ram[..], kdir, p)
      {
        ghost var before := ram[..];
        assert !InWindow(v / PAGE_SIZE);
        WindowPages(v);
        var ok := MapOne(v);
        MapsMoreTrans(start, before, ram[..], kdir);
        if !ok {
          return;
        }
        PagesUpTo(v);
        v := v + PAGE_SIZE;
      }
    }

    /** map_supervisor: the range without the ring-3 window. */
    method MapSupervisor(from: u32, limit: u32)
      requires Booting() && limit <= 0xFFFF_F000
      modifies ram, frames`framesFree, frames.bitmap
      ensures Booting() && frames.Free() <= old(frames.Free()) && MapsMore(old(ram[..]), ram[..], kdir)
      ensures frames.Free() != {} && from < limit ==>
                forall p: nat :: from / PAGE_SIZE <= p && p * PAGE_SIZE < limit && !InWindow(p) ==> p < FRAME_LIMIT && KernelMaps(ram[..], kdir, p)
    {
      hide FreeIn, BootOk, KernelMaps;
      ghost var start := ram[..];
      KdirInRam();
      MapsMoreRefl(start, kdir);
      if from >= limit {
        return;
      }
      if from < USER_BASE {
        MapRange(from, if limit < USER_BASE then limit else USER_BASE);
      }
      ghost var mid := ram[..];
      MapsMoreRefl(mid, kdir);
      if limit > USER_TOP {
        MapRange(if from > USER_TOP then from else USER_TOP, limit);
      }
      MapsMoreTrans(start, mid, ram[..], kdir);
    }

    /** map_usable. */
    method MapUsable(map': seq<E820Entry>)
      requires Booting() && LoopsEnd(map')
      modifies ram, frames`framesFree, frames.bitmap
      ensures Booting() && frames.Free() <= old(frames.Free()) && MapsMore(old(ram[..]), ram[..], kdir)
      ensures frames.Free() != {} ==> AllMapped(ram[..], kdir, map', |map'|)
    {
      hide FreeIn, BootOk, KernelMaps;
      ghost var start := ram[..];
      KdirInRam();
      MapsMoreRefl(start, kdir);
      var i := 0;
      while i < |map'|
        invariant 0 <= i <= |map'| && kdir < ram.Length && Booting() && frames.Free() <= old(frames.Free()) && MapsMore(start, ram[..], kdir)
        invariant frames.Free() != {} ==> AllMapped(ram[..], kdir, map', i)
      {
        ghost var before := ram[..];
        var e := map'[i];
        var base, length := e.baseLo, e.lenLo;
        if Considered(e) && !((base + length) % TWO32 < base || (base + length) % TWO32 <= LOW_END) {
          assert !Skipped(e);
          if base < LOW_END {
            base := LOW_END;
          }
          MapSupervisor(base, (base + length) % TWO32);
          MapsMoreTrans(start, before, ram[..], kdir);
        } else {
          assert Skipped(e);
          MapsMoreRefl(before, kdir);
        }
        if frames.Free() != {} {
          AllMappedStep(before, ram[..], kdir, map', i);
        }
        i := i + 1;
      }
    }

    /** paging_init. If map_usable maps every entry in full, every frame still free afterwards is identity-mapped for the
        supervisor alone, the window is unmapped, and processes can be created. The kernel's own megabyte is mapped while frames last. */
    method PagingInit(map': seq<E820Entry>)
      requires frames.Valid() && Separate() && kdir * PAGE_SIZE < LOW_END && kdir < ram.Length && frames.nframes <= ram.Length
      requires frames.Free() <= BootFree(map', frames.nframes) && LoopsEnd(map')
      modifies this`curDir, this`cr3, this`owner, this`boot, ram, frames`framesFree, frames.bitmap
      ensures Booting() && frames.Free() <= old(frames.Free())
      ensures AllFullyMapped(map') ==> Valid() && owner == map[] && frames.Free() == Pool(frames.nframes, boot)
      ensures frames.Free() != {} ==> LowMegabyteMapped(ram[..], kdir)
    {
      hide FreeIn, BootOk, KernelMaps, AllMapped, SpacesOk, PageRange, BootFree, AllFullyMapped, LoopsEnd, MapsMore, MapsPages, Pool;
      curDir, cr3 := 0, kdir * PAGE_SIZE;
      owner := map[];
      ram[kdir] := Zeros();
      LowFramesReserved(map', frames.nframes);
      EmptyDirectory(ram[..], kdir, frames.Free());
      MapRange(0, LOW_END);
      ghost var low := ram[..];
      MapUsable(map');
      if frames.Free() != {} {
        LowMapped(low, ram[..], kdir, frames.Free());
      }
      boot := PageRange(0, ram.Length) - frames.Free();
      if AllFullyMapped(map') {
        BootOver(ram[..], kdir, frames.nframes, map', frames.Free());
      }
    }

    /** memory_init, then paging_init: the state every later call starts from. */
    static method Boot(map': seq<E820Entry>, kernelEnd: u32, memory: array<Frame>, dir: nat) returns (pager: Pager)
      requires kernelEnd < 0x8000_0000 && LoopsEnd(map')
      requires memory.Length == 0x10_0000 && dir * PAGE_SIZE < LOW_END
      modifies memory
      ensures fresh(pager) && pager.Booting()
      ensures AllFullyMapped(map') ==> pager.Valid() && pager.owner == map[] && pager.frames.Free() == Pool(pager.frames.nframes, pager.boot)
      ensures pager.frames.Free() != {} ==> LowMegabyteMapped(pager.ram[..], pager.kdir)
    {
      hide BootFree, LoopsEnd, AllFullyMapped, FreeIn;
      var frames := new FrameAllocator.MemoryInit(map', kernelEnd);
      pager := new Pager(frames, memory, dir);
      pager.PagingInit(map');
    }

    // -------------------------------------------------------------- processes

    /** vm_create: a fresh directory, or 0 with the same frames free as before. */
    method Create() returns (d: u32)
      requires Valid()
      modifies this`owner, this`brk, ram, frames`framesFree, frames.bitmap
      ensures Valid()
      ensures d == 0 ==> owner == old(owner) && frames.Free() == old(frames.Free()) && brk == old(brk)
      ensures d == 0 <==> |old(frames.Free())| < 2
      ensures d != 0 ==> d % PAGE_SIZE == 0 && brk == 0
      ensures d != 0 ==> Created(old(frames.Free()), old(owner), owner, ram[..], d / PAGE_SIZE)
      ensures SameTranslations(old(ram[..]), ram[..], kdir, old(owner)) && PagesKept(old(ram[..]), ram[..], old(owner))
    {
      hide SpacesOk, SameTranslations, PagesKept, FreeIn, Pool, Created, PageRange, CpuOk;
      ghost var start, before := frames.Free(), ram[..];
      KernelNotOwned(before, kdir, frames.nframes, boot, owner);
      var pt;
      d, pt := TakeDirectoryAndTable();
      if d != 0 {
        CountTwo(start, d / PAGE_SIZE, pt / PAGE_SIZE);
        TwoTaken(Pool(frames.nframes, boot), owner, d / PAGE_SIZE, pt / PAGE_SIZE);
        ghost var rest, dirs := frames.Free(), owner;
        LinkTable(d / PAGE_SIZE, pt, before, start);
        brk := 0;
        CpuKept(dirs, owner, kdir, cr3, curDir);
        assert frames.Free() == rest == Pool(frames.nframes, boot) - owner.Keys;
      }
    }

    /** The two allocations of vm_create: both succeed or the first is given back. */
    method TakeDirectoryAndTable() returns (d: u32, pt: u32)
      requires frames.Valid() && Separate() && SpacesOk(ram[..], kdir, frames.nframes, boot, owner)
      requires frames.Free() <= Pool(frames.nframes, boot) - owner.Keys
      modifies ram, frames`framesFree, frames.bitmap
      ensures frames.Valid() && SpacesOk(ram[..], kdir, frames.nframes, boot, owner)
      ensures d == 0 ==> frames.Free() == old(frames.Free()) && |frames.Free()| < 2
      ensures d != 0 ==> var f, t := d / PAGE_SIZE, pt / PAGE_SIZE;
                && d % PAGE_SIZE == 0 && pt % PAGE_SIZE == 0 && f != t && f in old(frames.Free()) && t in old(frames.Free())
                && frames.Free() == old(frames.Free()) - {f} - {t}
                && f < ram.Length && t < ram.Length && kdir < ram.Length && ram[f] == ram[kdir] && ram[t] == Zeros()
      ensures SameTranslations(old(ram[..]), ram[..], kdir, owner) && PagesKept(old(ram[..]), ram[..], owner)
    {
      hide SpacesOk, SameTranslations, PagesKept, FreeIn, Pool, PageRange, Zeros;
      ghost var start, before := frames.Free(), ram[..];
      KernelNotOwned(before, kdir, frames.nframes, boot, owner);
      PageRangeIs(0, |before|);
      pt := 0;
      d := TakeFrame(ram[kdir]);
      if d == 0 {
        return;
      }
      ghost var mid := ram[..];
      pt := TakeFrame(Zeros());
      SameTranslationsTrans(before, mid, ram[..], kdir, owner);
      PagesKeptTrans(before, mid, ram[..], owner);
      if pt == 0 {
        frames.FreeFrame(d);
        assert start == {d / PAGE_SIZE} && frames.Free() == start;
        assert ram[..] == mid;
        d := 0;
      }
    }

    /** The directory entry of the window, and with it the process. */
    method LinkTable(f: nat, pt: u32, ghost before: Ram, ghost start: set<nat>)
      requires frames.Valid() && SpacesOk(ram[..], kdir, frames.nframes, boot, owner)
      requires |before| == ram.Length && SameTranslations(before, ram[..], kdir, owner) && PagesKept(before, ram[..], owner)
      requires var t := pt / PAGE_SIZE;
        && pt % PAGE_SIZE == 0 && f != t && f in start && t in start
        && start <= Pool(frames.nframes, boot) - owner.Keys && start <= PageRange(0, ram.Length) && kdir < ram.Length && ram[f] == ram[kdir] && ram[t] == Zeros()
      modifies this`owner, ram
      ensures SpacesOk(ram[..], kdir, frames.nframes, boot, owner)
      ensures owner == old(owner)[f := Directory][pt / PAGE_SIZE := Table(f)]
      ensures Created(start, old(owner), owner, ram[..], f)
      ensures SameTranslations(before, ram[..], kdir, old(owner)) && PagesKept(before, ram[..], old(owner))
    {
      hide SpacesOk, SameTranslations;
      ghost var last, t := ram[..], pt / PAGE_SIZE;
      ram[f] := ram[f][USER_PDE := pt + 7];
      assert ram[..] == last[f := last[f][USER_PDE := UserEntry(t)]];
      CreateKeepsTranslations(last, kdir, frames.nframes, boot, owner, f, ram[f]);
      SameTranslationsTrans(before, last, ram[..], kdir, owner);
      CreateStep(last, kdir, frames.nframes, boot, owner, f, t);
      owner := owner[f := Directory][t := Table(f)];
      assert Fresh(start, old(owner), owner, ram[..], f, t);
    }

    /** alloc_frame followed by filling the frame through the identity map. */
    method TakeFrame(content: Frame) returns (addr: u32)
      requires frames.Valid() && Separate() && SpacesOk(ram[..], kdir, frames.nframes, boot, owner)
      requires frames.Free() <= Pool(frames.nframes, boot) - owner.Keys
      modifies ram, frames`framesFree, frames.bitmap
      ensures frames.Valid() && SpacesOk(ram[..], kdir, frames.nframes, boot, owner)
      ensures addr % PAGE_SIZE == 0
      ensures addr == 0 ==> ram[..] == old(ram[..]) && frames.Free() == old(frames.Free()) == {}
      ensures addr != 0 ==> var f := addr / PAGE_SIZE;
                f in old(frames.Free()) && frames.Free() == old(frames.Free()) - {f} && ram[..] == old(ram[..])[f := content]
      ensures SameTranslations(old(ram[..]), ram[..], kdir, owner) && PagesKept(old(ram[..]), ram[..], owner)
    {
      hide SpacesOk, SameTranslations, FreeIn;
      ghost var before := ram[..];
      KernelNotOwned(before, kdir, frames.nframes, boot, owner);
      SameTranslationsRefl(before, kdir, owner);
      addr := frames.Alloc();
      assert ram[..] == before;
      if addr != 0 {
        var f := addr / PAGE_SIZE;
        DataWrite(before, kdir, frames.nframes, boot, owner, f, content);
        CreateKeepsTranslations(before, kdir, frames.nframes, boot, owner, f, content);
        ram[f] := content;
        assert ram[..] == before[f := content];
      }
    }

    /** vm_attach. The shell attaches the directory it has just created. */
    method Attach(dir: u32)
      requires Valid() && dir % PAGE_SIZE == 0 && dir != 0 && IsDir(owner, dir / PAGE_SIZE)
      modifies this`curDir, this`cr3
      ensures Valid() && curDir == cr3 == dir
    {
      hide SpacesOk, FreeIn, Pool;
      curDir := dir;
      cr3 := dir;
    }

    /** vm_fault: demand paging inside the window, and nothing anywhere else. */
    method Fault(addr: u32) returns (ok: bool)
      requires Valid()
      modifies this`owner, this`faultCount, ram, frames`framesFree, frames.bitmap
      ensures Valid()
      ensures ok <==> USER_BASE <= addr < USER_TOP && IsDir(old(owner), cr3 / PAGE_SIZE) && old(frames.Free()) != {} &&
                      cr3 / PAGE_SIZE < ram.Length && old(Translate(ram[..], cr3 / PAGE_SIZE, addr)) == Translation.Fault
      ensures !ok ==> ram[..] == old(ram[..]) && owner == old(owner) && frames.Free() == old(frames.Free()) && faultCount == old(faultCount)
      ensures ok ==> faultCount == Counted(old(faultCount))
      ensures ok ==> Served(old(frames.Free()), frames.Free(), old(owner), owner, old(ram[..]), ram[..], kdir, cr3 / PAGE_SIZE, addr)
    {
      hide SpacesOk, SameTranslations, FreeIn, Pool, PageAdded, Translate, SpaceOk, CpuOk, Served, Counted;
      KernelNotOwned(ram[..], kdir, frames.nframes, boot, owner);
      if addr < USER_BASE || addr >= USER_TOP {
        return false;
      }
      var d := cr3 / PAGE_SIZE;
      var pdi := addr / 0x40_0000;
      CpuDirectory(ram[..], kdir, frames.nframes, boot, owner, cr3, curDir);
      FaultLookup(ram[..], kdir, frames.nframes, boot, owner, d, addr);
      if !Present(ram[d][pdi]) {
        return false;
      }
      var t, j := FrameNo(ram[d][pdi]), addr / PAGE_SIZE % ENTRIES;
      if Present(ram[t][j]) {
        return false;
      }
      ok := MapPage(addr);
    }

    /** vm_fault once the slot is known to be empty: a zeroed frame, linked. */
    method MapPage(addr: u32) returns (ok: bool)
      requires Valid() && USER_BASE <= addr < USER_TOP && IsDir(owner, cr3 / PAGE_SIZE) && cr3 / PAGE_SIZE < ram.Length
      requires Translate(ram[..], cr3 / PAGE_SIZE, addr) == Translation.Fault
      modifies this`owner, this`faultCount, ram, frames`framesFree, frames.bitmap
      ensures Valid()
      ensures ok <==> old(frames.Free()) != {}
      ensures !ok ==> ram[..] == old(ram[..]) && owner == old(owner) && frames.Free() == old(frames.Free()) && faultCount == old(faultCount)
      ensures ok ==> faultCount == Counted(old(faultCount))
      ensures ok ==> Served(old(frames.Free()), frames.Free(), old(owner), owner, old(ram[..]), ram[..], kdir, cr3 / PAGE_SIZE, addr)
    {
      hide SpacesOk, SameTranslations, PagesKept, FreeIn, Pool, PageAdded, Translate, CpuOk, Served, IsDir, Counted;
      ghost var start, free := ram[..], frames.Free();
      KernelNotOwned(start, kdir, frames.nframes, boot, owner);
      var frame := TakeFrame(Zeros());
      ok := frame != 0;
      if ok {
        TakenFromPool(free, Pool(frames.nframes, boot), owner, frame / PAGE_SIZE);
        UseFrame(addr, frame, start, free);
      }
    }

    /** The new frame enters the page table, the owner map and the fault counter. */
    method UseFrame(addr: u32, frame: u32, ghost start: Ram, ghost free: set<nat>)
      requires frames.Valid() && Separate() && kdir * PAGE_SIZE < LOW_END && CpuOk(owner, kdir, cr3, curDir)
      requires SpacesOk(ram[..], kdir, frames.nframes, boot, owner)
      requires USER_BASE <= addr < USER_TOP && IsDir(owner, cr3 / PAGE_SIZE) && cr3 / PAGE_SIZE < ram.Length
      requires |start| == ram.Length && SameTranslations(start, ram[..], kdir, owner) && PagesKept(start, ram[..], owner)
      requires Translate(start, cr3 / PAGE_SIZE, addr) == Translation.Fault
      requires var f := frame / PAGE_SIZE;
        && frame % PAGE_SIZE == 0 && f in free && f < ram.Length && ram[f] == Zeros()
        && f in Pool(frames.nframes, boot) && f !in owner
      requires free == Pool(frames.nframes, boot) - owner.Keys && frames.Free() == free - {frame / PAGE_SIZE}
      modifies this`owner, this`faultCount, ram
      ensures Valid() && faultCount == Counted(old(faultCount))
      ensures Served(free, frames.Free(), old(owner), owner, start, ram[..], kdir, cr3 / PAGE_SIZE, addr)
    {
      hide SpacesOk, SameTranslations, PagesKept, FreeIn, Pool, PageAdded, Translate, CpuOk, Served, IsDir, Counted;
      ghost var rest, dirs, f := frames.Free(), owner, frame / PAGE_SIZE;
      OneTaken(Pool(frames.nframes, boot), owner.Keys, f);
      LinkPage(addr, frame, start, free);
      assert frames.Free() == rest;
      CpuKept(dirs, owner, kdir, cr3, curDir);
      ServedBy(free, rest, dirs, owner, start, ram[..], kdir, cr3 / PAGE_SIZE, addr, f);
      faultCount := Counted(faultCount);
    }

    /** The page-table store of vm_fault. */
    method LinkPage(addr: u32, frame: u32, ghost start: Ram, ghost free: set<nat>)
      requires frames.Valid() && SpacesOk(ram[..], kdir, frames.nframes, boot, owner)
      requires USER_BASE <= addr < USER_TOP && IsDir(owner, cr3 / PAGE_SIZE) && cr3 / PAGE_SIZE < ram.Length
      requires |start| == ram.Length && SameTranslations(start, ram[..], kdir, owner) && PagesKept(start, ram[..], owner)
      requires Translate(start, cr3 / PAGE_SIZE, addr) == Translation.Fault
      requires var f := frame / PAGE_SIZE;
        && frame % PAGE_SIZE == 0 && f in free && f < ram.Length && ram[f] == Zeros()
        && f in Pool(frames.nframes, boot) && f !in owner
      modifies this`owner, ram
      ensures SpacesOk(ram[..], kdir, frames.nframes, boot, owner)
      ensures owner.Keys == old(owner.Keys) + {frame / PAGE_SIZE}
      ensures forall e :: IsDir(old(owner), e) ==> IsDir(owner, e)
      ensures PageAdded(free, old(owner), owner, start, ram[..], kdir, cr3 / PAGE_SIZE, addr, frame / PAGE_SIZE)
    {
      hide SpacesOk, FreeIn, Pool, Translate, PageAdded;
      ghost var before, f := ram[..], frame / PAGE_SIZE;
      var d := cr3 / PAGE_SIZE;
      WindowIsOneDirectoryEntry(addr);
      FaultSteps(start, before, free, kdir, frames.nframes, boot, owner, d, addr, f);
      var t, j := FrameNo(ram[d][addr / 0x40_0000]), addr / PAGE_SIZE % ENTRIES;
      ram[t] := ram[t][j := frame + 7];
      assert ram[..] == before[t := before[t][j := UserEntry(f)]];
      owner := owner[f := Page(d, j)];
    }

    /** A ring-3 store of one word through the current directory: it succeeds on every page the process has, changes that word of
        that process and no other word of any process, and no translation. */
    method UserStore(addr: u32, value: u32) returns (ok: bool)
      requires Valid() && IsDir(owner, cr3 / PAGE_SIZE)
      modifies ram
      ensures Valid() && cr3 / PAGE_SIZE < ram.Length && SameTranslations(old(ram[..]), ram[..], kdir, owner)
      ensures ok <==> UserWord(old(ram[..]), cr3 / PAGE_SIZE, addr).Some?
      ensures !ok ==> ram[..] == old(ram[..])
      ensures ok ==> WordStored(old(ram[..]), ram[..], owner, cr3 / PAGE_SIZE, addr, value)
    {
      hide SpacesOk, SameTranslations, FreeIn, WordStored, Translate;
      ghost var before, n := ram[..], frames.nframes;
      KernelNotOwned(before, kdir, n, boot, owner);
      CpuDirectory(before, kdir, n, boot, owner, cr3, curDir);
      SameTranslationsRefl(before, kdir, owner);
      var d := cr3 / PAGE_SIZE;
      var t := Translate(ram[..], d, addr);
      if t.Mapped? && t.user {
        UserTranslationsAreOwned(before, kdir, n, boot, owner, d, addr);
        OwnedInPool(before, kdir, n, boot, owner, t.frame);
      }
      if t.Fault? || !t.user || !t.writable {
        return false;
      }
      ghost var content := ram[t.frame][addr % PAGE_SIZE / 4 := value];
      DataWrite(before, kdir, n, boot, owner, t.frame, content);
      DataKeepsTranslations(before, kdir, n, boot, owner, t.frame, content);
      ram[t.frame] := ram[t.frame][addr % PAGE_SIZE / 4 := value];
      assert ram[..] == before[t.frame := content];
      StoreIsSeen(before, ram[..], kdir, n, boot, owner, d, addr, value);
      ok := true;
    }

    /** A store as the program meets it: after a page fault that vm_fault serves, the processor retries and the store succeeds.
        It fails only outside the window, or when a new page is needed and no frame is free. */
    method StoreOnDemand(s: Store, ghost start: Owners, ghost past: seq<Store>) returns (ok: bool, filled: bool)
      requires Valid() && IsDir(owner, cr3 / PAGE_SIZE) && cr3 / PAGE_SIZE < ram.Length
      requires OwnersExtend(start, owner, cr3 / PAGE_SIZE) && ReadsAs(ram[..], cr3 / PAGE_SIZE, past)
      modifies this`owner, this`faultCount, ram, frames`framesFree, frames.bitmap
      ensures Valid() && IsDir(owner, cr3 / PAGE_SIZE) && OwnersExtend(start, owner, cr3 / PAGE_SIZE)
      ensures ok <==> UserWord(old(ram[..]), cr3 / PAGE_SIZE, s.addr).Some? || (USER_BASE <= s.addr < USER_TOP && old(frames.Free()) != {})
      ensures !ok ==> ram[..] == old(ram[..]) && frames.Free() == old(frames.Free())
      ensures ReadsAs(ram[..], cr3 / PAGE_SIZE, if ok then past + [s] else past)
      ensures WordsKept(old(ram[..]), ram[..], start)
      ensures |WindowSlots(ram[..], cr3 / PAGE_SIZE)| == |WindowSlots(old(ram[..]), cr3 / PAGE_SIZE)| + if filled then 1 else 0
    {
      hide SpacesOk, SameTranslations, FreeIn, Pool, Translate, CpuOk, WindowSlots, OwnersExtend, WordStored, PageZeroed, ReadsAs,
        WordsKept, PageAdded, UserWord;
      ghost var first, d := ram[..], cr3 / PAGE_SIZE;
      filled := false;
      ok := UserStore(s.addr, s.value);
      if ok {
        SlotsKept(first, ram[..], kdir, owner, d);
        StoreIsRead(first, ram[..], owner, d, s, past);
        OthersKeep(first, ram[..], owner, start, d, s.addr, s.value);
        return;
      }
      WordsKeptRefl(first, start);
      NoWordIsFault(first, kdir, frames.nframes, boot, owner, d, s.addr);
      filled := Demand(s.addr, start, past);
      if !filled {
        return;
      }
      ghost var mid := ram[..];
      ok := UserStore(s.addr, s.value);
      SlotsKept(mid, ram[..], kdir, owner, d);
      StoreIsRead(mid, ram[..], owner, d, s, past);
      OthersKeep(mid, ram[..], owner, start, d, s.addr, s.value);
      WordsKeptTrans(first, mid, ram[..], start);
    }

    /** The page fault of a store to a page the process does not have. */
    method Demand(addr: u32, ghost start: Owners, ghost past: seq<Store>) returns (ok: bool)
      requires Valid() && IsDir(owner, cr3 / PAGE_SIZE) && cr3 / PAGE_SIZE < ram.Length
      requires OwnersExtend(start, owner, cr3 / PAGE_SIZE) && ReadsAs(ram[..], cr3 / PAGE_SIZE, past)
      requires UserWord(ram[..], cr3 / PAGE_SIZE, addr) == None
      modifies this`owner, this`faultCount, ram, frames`framesFree, frames.bitmap
      ensures Valid() && IsDir(owner, cr3 / PAGE_SIZE) && OwnersExtend(start, owner, cr3 / PAGE_SIZE)
      ensures ok <==> USER_BASE <= addr < USER_TOP && old(frames.Free()) != {}
      ensures !ok ==> ram[..] == old(ram[..]) && frames.Free() == old(frames.Free())
      ensures ok ==> UserWord(ram[..], cr3 / PAGE_SIZE, addr).Some?
      ensures ReadsAs(ram[..], cr3 / PAGE_SIZE, past) && WordsKept(old(ram[..]), ram[..], start)
      ensures |WindowSlots(ram[..], cr3 / PAGE_SIZE)| == |WindowSlots(old(ram[..]), cr3 / PAGE_SIZE)| + if ok then 1 else 0
    {
      hide SpacesOk, SameTranslations, FreeIn, Pool, Translate, CpuOk, WindowSlots, OwnersExtend, PageZeroed, ReadsAs, WordsKept,
        PageAdded, UserWord;
      ghost var before, dirs, free, d := ram[..], owner, frames.Free(), cr3 / PAGE_SIZE;
      NoWordIsFault(before, kdir, frames.nframes, boot, owner, d, addr);
      WordsKeptRefl(before, start);
      FreeIsUnowned();
      ok := Fault(addr);
      if ok {
        ghost var f :| PageAdded(free, dirs, owner, before, ram[..], kdir, d, addr, f);
        SlotGained(free, dirs, owner, before, ram[..], kdir, d, addr, f, start);
        FaultIsZeroFill(free, kdir, frames.nframes, boot, dirs, owner, before, ram[..], d, addr, f);
        FaultKeepsReads(before, ram[..], dirs, d, addr, past);
        OthersKeep(before, ram[..], dirs, start, d, addr, 0);
        ZeroedIsThere(before, ram[..], dirs, d, addr);
      }
    }

    lemma FreeIsUnowned()
      requires Valid()
      ensures frames.Free() !! owner.Keys
    {
    }

    /** vm_destroy: every frame of the process goes back to the pool. The directory must not be the one in CR3. */
    method Destroy(dir: u32)
      requires Valid() && (dir == 0 || dir == kdir * PAGE_SIZE ||
                           (dir % PAGE_SIZE == 0 && IsDir(owner, dir / PAGE_SIZE) && dir != cr3))
      modifies this`owner, ram, frames`framesFree, frames.bitmap
      ensures Valid()
      ensures dir == 0 || dir == kdir * PAGE_SIZE ==> owner == old(owner) && ram[..] == old(ram[..]) && frames.Free() == old(frames.Free())
      ensures dir != 0 && dir != kdir * PAGE_SIZE ==> owner == old(owner) - OwnedBy(old(owner), dir / PAGE_SIZE)
      ensures SameTranslations(old(ram[..]), ram[..], kdir, owner) && PagesKept(old(ram[..]), ram[..], owner)
    {
      hide SpacesOk, SameTranslations, FreeIn, Pool, OwnedBy;
      ghost var before, n := ram[..], frames.nframes;
      KernelNotOwned(before, kdir, n, boot, owner);
      SameTranslationsRefl(before, kdir, owner);
      if dir == 0 || dir == kdir * PAGE_SIZE {
        return;
      }
      DestroyProcess(dir / PAGE_SIZE);
    }

    method DestroyProcess(d: nat)
      requires Valid() && IsDir(owner, d) && d != cr3 / PAGE_SIZE
      modifies this`owner, ram, frames`framesFree, frames.bitmap
      ensures Valid() && owner == old(owner) - OwnedBy(old(owner), d)
      ensures SameTranslations(old(ram[..]), ram[..], kdir, owner) && PagesKept(old(ram[..]), ram[..], owner)
    {
      hide SpacesOk, SameTranslations, PagesKept, FreeIn, Pool, OwnedBy, CpuOk;
      ghost var before, n := ram[..], frames.nframes;
      DirFacts(before, kdir, n, boot, owner, d);
      EntryBits(WindowTable(before, d));
      DirNotOwnedByOther(before, kdir, n, boot, owner, d, cr3 / PAGE_SIZE);
      DestroyStep(before, kdir, n, boot, owner, d);
      FramesReturned(before, kdir, n, boot, owner, d);
      DestroyTranslations(before, kdir, n, boot, owner, d);
      DirectoryHoldsNoPage(before, kdir, n, boot, owner, d);
      ReleaseSpace(d);
      ghost var rest := frames.Free();
      CpuKept(owner, owner - OwnedBy(owner, d), kdir, cr3, curDir);
      owner := owner - OwnedBy(owner, d);
      assert frames.Free() == rest;
    }

    /** The frees and the one store of vm_destroy. */
    method ReleaseSpace(d: nat)
      requires frames.Valid() && Separate() && d < ram.Length && d < frames.nframes && Present(ram[d][USER_PDE])
      requires WindowTable(ram[..], d) < frames.nframes && WindowTable(ram[..], d) < ram.Length
      requires PagesInRange(ram[WindowTable(ram[..], d)], frames.nframes)
      modifies ram, frames`framesFree, frames.bitmap
      ensures frames.Valid() && ram[..] == old(ram[..])[d := old(ram[d])[USER_PDE := 0]]
      ensures var t := WindowTable(old(ram[..]), d);
              frames.Free() == old(frames.Free()) + PagesBelow(old(ram[t]), ENTRIES) + {t} + {d}
    {
      hide FreeIn, PagesBelow;
      ghost var before := ram[..];
      var t := FrameNo(ram[d][USER_PDE]);
      FreePages(t);
      frames.FreeFrame(t * PAGE_SIZE);
      assert ram[..] == before;
      ram[d] := ram[d][USER_PDE := 0];
      frames.FreeFrame(d * PAGE_SIZE);
      assert ram[..] == before[d := before[d][USER_PDE := 0]];
    }

    static lemma OneMore(free: set<nat>, pages: set<nat>, f: nat)
      ensures free + pages + {f} == free + (pages + {f})
    {
    }

    /** The loop of vm_destroy over one page table. */
    method FreePages(t: nat)
      requires frames.Valid() && Separate() && t < ram.Length
      requires PagesInRange(ram[t], frames.nframes)
      modifies frames`framesFree, frames.bitmap
      ensures frames.Valid() && ram[..] == old(ram[..])
      ensures frames.Free() == old(frames.Free()) + PagesBelow(ram[t], ENTRIES)
    {
      hide FreeIn, FrameNo, PagesBelow, Present;
      ghost var before := ram[..];
      var table := ram[t];
      var j := 0;
      PagesBelowStep(table, 0);
      while j < ENTRIES
        invariant 0 <= j <= ENTRIES && frames.Valid()
        invariant frames.Free() == old(frames.Free()) + PagesBelow(table, j)
        modifies frames`framesFree, frames.bitmap
      {
        PagesBelowStep(table, j);
        if Present(table[j]) {
          OneMore(old(frames.Free()), PagesBelow(table, j), FrameNo(table[j]));
          frames.FreeFrame(FrameNo(table[j]) * PAGE_SIZE);
        }
        j := j + 1;
      }
      assert ram[..] == before;
    }

    /** vm_detach: back to the kernel directory first, then the process is destroyed. */
    method Detach()
      requires Valid()
      modifies this`owner, this`curDir, this`cr3, ram, frames`framesFree, frames.bitmap
      ensures Valid() && curDir == 0 && cr3 == kdir * PAGE_SIZE
      ensures old(curDir) == 0 ==> owner == old(owner) && ram[..] == old(ram[..]) && frames.Free() == old(frames.Free())
      ensures old(curDir) != 0 ==> owner == old(owner) - OwnedBy(old(owner), old(curDir) / PAGE_SIZE)
      ensures SameTranslations(old(ram[..]), ram[..], kdir, owner) && PagesKept(old(ram[..]), ram[..], owner)
    {
      hide SpacesOk, SameTranslations, FreeIn, Pool, OwnedBy;
      var previous := curDir;
      SameTranslationsRefl(ram[..], kdir, owner);
      if previous == 0 {
        return;
      }
      KernelNotOwned(ram[..], kdir, frames.nframes, boot, owner);
      curDir := 0;
      cr3 := kdir * PAGE_SIZE;
      Destroy(previous);
    }

    // -------------------------------------------------------------- whole lives

    /** While no process is alive exactly the frames of the pool are free: nothing leaks over any run. */
    lemma NothingLeaks()
      requires Valid() && owner == map[]
      ensures frames.Free() == Pool(frames.nframes, boot) && frames.framesFree == |Pool(frames.nframes, boot)|
    {
      hide SpacesOk, FreeIn;
    }

    /** The stores of the running program, until one of them kills it: what it reads is what a plain memory of zeros would hold after
        the same stores, the other processes read what they did, and at most 1024 faults were served. */
    method RunStores(stores: seq<Store>, ghost start: Owners) returns (done: nat, served: nat)
      requires Valid() && IsDir(owner, cr3 / PAGE_SIZE) && cr3 / PAGE_SIZE < ram.Length
      requires OwnersExtend(start, owner, cr3 / PAGE_SIZE) && WindowSlots(ram[..], cr3 / PAGE_SIZE) == {}
      modifies this`owner, this`faultCount, ram, frames`framesFree, frames.bitmap
      ensures Valid() && IsDir(owner, cr3 / PAGE_SIZE) && OwnersExtend(start, owner, cr3 / PAGE_SIZE)
      ensures done <= |stores| && ReadsAs(ram[..], cr3 / PAGE_SIZE, stores[..done])
      ensures done < |stores| ==> UserWord(ram[..], cr3 / PAGE_SIZE, stores[done].addr) == None
      ensures done < |stores| ==> frames.Free() == {} || !(USER_BASE <= stores[done].addr < USER_TOP)
      ensures WordsKept(old(ram[..]), ram[..], start)
      ensures served <= ENTRIES
    {
      hide SpacesOk, SameTranslations, FreeIn, Pool, Translate, CpuOk, WindowSlots, OwnersExtend, ReadsAs, WordsKept, UserWord;
      ghost var first, d := ram[..], cr3 / PAGE_SIZE;
      done, served := 0, 0;
      NothingRead(first, kdir, frames.nframes, boot, owner, d);
      WordsKeptRefl(first, start);
      while done < |stores|
        invariant done <= |stores| && Valid() && IsDir(owner, d) && OwnersExtend(start, owner, d) && d < ram.Length
        invariant ReadsAs(ram[..], d, stores[..done]) && WordsKept(first, ram[..], start) && served == |WindowSlots(ram[..], d)|
      {
        ghost var before := ram[..];
        var ok, filled := StoreOnDemand(stores[done], start, stores[..done]);
        WordsKeptTrans(first, before, ram[..], start);
        assert stores[..done + 1] == stores[..done] + [stores[done]];
        served := served + if filled then 1 else 0;
        if !ok {
          break;
        }
        done := done + 1;
      }
      SlotsBound(ram[..], d);
    }

    /** vm_create and vm_attach. */
    method StartProgram() returns (dir: u32)
      requires Valid() && curDir == 0
      modifies this`owner, this`brk, this`curDir, this`cr3, ram, frames`framesFree, frames.bitmap
      ensures Valid() && WordsKept(old(ram[..]), ram[..], old(owner))
      ensures dir == 0 ==> curDir == 0 && owner == old(owner) && frames.Free() == old(frames.Free())
      ensures dir != 0 ==> curDir == cr3 == dir && IsDir(owner, dir / PAGE_SIZE) && dir / PAGE_SIZE < ram.Length
      ensures dir != 0 ==> OwnersExtend(old(owner), owner, dir / PAGE_SIZE) && WindowSlots(ram[..], dir / PAGE_SIZE) == {}
    {
      hide SpacesOk, SameTranslations, PagesKept, FreeIn, Pool, Created, Translate, CpuOk, WindowSlots, OwnersExtend, WordsKept, UserWord;
      ghost var first, start, n := ram[..], owner, frames.nframes;
      FreeIsUnowned();
      dir := Create();
      KeptPagesKeepWords(first, ram[..], kdir, n, boot, start);
      if dir != 0 {
        NewProcess(old(frames.Free()), kdir, n, boot, start, owner, first, ram[..], dir / PAGE_SIZE);
        Attach(dir);
      }
    }

    /** vm_detach of the process that was started when `start` was everything. */
    method StopProgram(ghost start: Owners)
      requires Valid() && curDir == cr3 != 0 && OwnersExtend(start, owner, cr3 / PAGE_SIZE)
      modifies this`owner, this`curDir, this`cr3, ram, frames`framesFree, frames.bitmap
      ensures Valid() && curDir == 0 && owner == start && WordsKept(old(ram[..]), ram[..], start)
    {
      hide SpacesOk, SameTranslations, PagesKept, FreeIn, Pool, CpuOk, OwnersExtend, OwnedBy, WordsKept;
      ghost var last, end := owner, ram[..];
      LifeOver(start, last, cr3 / PAGE_SIZE);
      Detach();
      KeptPagesKeepWords(end, ram[..], kdir, frames.nframes, boot, start);
    }

    /** One program from vm_create to vm_detach with any stores in between: the same frames are free afterwards, every other
        process reads what it read before, and at most 1024 faults were served. */
    method RunProgram(stores: seq<Store>) returns (done: nat, served: nat)
      requires Valid() && curDir == 0
      modifies this`owner, this`brk, this`curDir, this`cr3, this`faultCount, ram, frames`framesFree, frames.bitmap
      ensures Valid() && curDir == 0 && owner == old(owner)
      ensures frames.Free() == old(frames.Free()) && frames.framesFree == old(frames.framesFree)
      ensures WordsKept(old(ram[..]), ram[..], owner)
      ensures done <= |stores| && served <= ENTRIES
    {
      hide SpacesOk, SameTranslations, FreeIn, Pool, Translate, CpuOk, WindowSlots, OwnersExtend, ReadsAs, WordsKept, UserWord;
      ghost var first, start := ram[..], owner;
      done, served := 0, 0;
      var dir := StartProgram();
      if dir != 0 {
        ghost var mid := ram[..];
        done, served := RunStores(stores, start);
        WordsKeptTrans(first, mid, ram[..], start);
        ghost var end := ram[..];
        StopProgram(start);
        WordsKeptTrans(first, end, ram[..], start);
      }
    }
  }

  /** CR3 names the kernel directory or a live one, and agrees with the current process. */
  predicate CpuOk(owner: Owners, kdir: nat, cr3: u32, curDir: u32) {
    && cr3 % PAGE_SIZE == 0
    && (if curDir == 0 then cr3 == kdir * PAGE_SIZE else cr3 == curDir && IsDir(owner, cr3 / PAGE_SIZE))
  }

  lemma CpuDirectory(ram: Ram, kdir: nat, n: nat, boot: set<nat>, owner: Owners, cr3: u32, curDir: u32)
    requires SpacesOk(ram, kdir, n, boot, owner) && CpuOk(owner, kdir, cr3, curDir)
    ensures cr3 / PAGE_SIZE < |ram| && (cr3 / PAGE_SIZE == kdir || IsDir(owner, cr3 / PAGE_SIZE))
  {
  }

  lemma CpuKept(owner: Owners, owner': Owners, kdir: nat, cr3: u32, curDir: u32)
    requires CpuOk(owner, kdir, cr3, curDir) && IsDir(owner, cr3 / PAGE_SIZE) ==> IsDir(owner', cr3 / PAGE_SIZE)
    requires CpuOk(owner, kdir, cr3, curDir)
    ensures CpuOk(owner', kdir, cr3, curDir)
  {
  }

  /** The fault counter is 32 bits wide. */
  function Counted(n: u32): u32 {
    (n + 1) % TWO32
  }

  /** One frame of the pool has become the page of the faulting address. */
  ghost predicate Served(free: set<nat>, rest: set<nat>, owner: Owners, owner': Owners, ram: Ram, ram': Ram, kdir: nat, d: nat, addr: u32) {
    exists f :: rest == free - {f} && PageAdded(free, owner, owner', ram, ram', kdir, d, addr, f)
  }

  lemma ServedBy(free: set<nat>, rest: set<nat>, owner: Owners, owner': Owners, ram: Ram, ram': Ram, kdir: nat, d: nat, addr: u32, f: nat)
    requires rest == free - {f} && PageAdded(free, owner, owner', ram, ram', kdir, d, addr, f)
    ensures Served(free, rest, owner, owner', ram, ram', kdir, d, addr)
  {
    hide PageAdded;
  }

  lemma TakenFromPool(free: set<nat>, pool: set<nat>, owner: Owners, f: nat)
    requires free == pool - owner.Keys && f in free
    ensures f in pool && f !in owner
  {
  }

  lemma OneTaken(pool: set<nat>, keys: set<nat>, f: nat)
    ensures pool - keys - {f} == pool - (keys + {f})
  {
  }

  lemma TwoTaken(pool: set<nat>, owner: Owners, f: nat, t: nat)
    ensures pool - owner.Keys - {f} - {t} == pool - owner[f := Directory][t := Table(f)].Keys
  {
  }

  lemma CountTwo(s: set<nat>, a: nat, b: nat)
    requires a in s && b in s && a != b
    ensures |s| >= 2
  {
    assert s == {a, b} + (s - {a, b});
    assert |{a, b}| == 2;
  }
}
