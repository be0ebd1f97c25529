/** Two-level page tables in physical memory, and who owns which frame: memory.c's address spaces as values. */
module Paging {
  import opened Arithmetic
  import opened Bytes
  import opened Frames

  const ENTRIES := 1024
  /** USER_BASE >> 22, which is also (USER_TOP - 1) >> 22. */
  const USER_PDE := 1

  lemma WindowIsOneDirectoryEntry(va: u32)
    ensures va / 0x40_0000 == USER_PDE <==> USER_BASE <= va < USER_TOP
  {
  }

  type Frame = s: seq<u32> | |s| == ENTRIES witness seq(ENTRIES, _ => 0)
  type Ram = seq<Frame>

  function Zeros(): Frame {
    seq(ENTRIES, _ => 0)
  }

  /** Bits 0 (present), 1 (R/W) and 2 (U/S) of a directory or table entry, and its frame number. */
  predicate Present(w: u32) {
    w % 2 == 1
  }

  predicate Writable(w: u32) {
    w / 2 % 2 == 1
  }

  predicate UserBit(w: u32) {
    w / 4 % 2 == 1
  }

  function FrameNo(w: u32): nat {
    w / PAGE_SIZE
  }

  /** Caching, accessed, dirty and page-size bits are clear. */
  predicate NoOtherBits(w: u32) {
    w % PAGE_SIZE < 8
  }

  /** frame | 0x3 | 0x4, and frame | 0x3, for a page-aligned frame address. */
  function UserEntry(f: nat): u32
    requires f < FRAME_LIMIT
  {
    f * PAGE_SIZE + 7
  }

  function KernelEntry(f: nat): u32
    requires f < FRAME_LIMIT
  {
    f * PAGE_SIZE + 3
  }

  lemma EntryBits(f: nat)
    requires f < FRAME_LIMIT
    ensures Present(UserEntry(f)) && Writable(UserEntry(f)) && UserBit(UserEntry(f)) && FrameNo(UserEntry(f)) == f
    ensures Present(KernelEntry(f)) && Writable(KernelEntry(f)) && !UserBit(KernelEntry(f)) && FrameNo(KernelEntry(f)) == f
    ensures NoOtherBits(UserEntry(f)) && NoOtherBits(KernelEntry(f))
  {
    LowBits(f, 7);
    LowBits(f, 3);
  }

  /** The bits below a page-aligned address are those that were added to it. */
  lemma LowBits(f: nat, low: nat)
    requires low < 8
    ensures var w := f * PAGE_SIZE + low; w / PAGE_SIZE == f && w % PAGE_SIZE == low && w % 2 == low % 2
    ensures var w := f * PAGE_SIZE + low; w / 2 % 2 == low / 2 % 2 && w / 4 % 2 == low / 4 % 2
  {
    var w := f * PAGE_SIZE + low;
    QuotientIs(w, PAGE_SIZE, f, low);
    QuotientIs(w, 2, 2048 * f + low / 2, low % 2);
    QuotientIs(w, 4, 1024 * f + low / 4, low % 4);
    QuotientIs(2048 * f + low / 2, 2, 1024 * f + low / 4, low / 2 % 2);
    QuotientIs(1024 * f + low / 4, 2, 512 * f, low / 4 % 2);
  }

  datatype Translation = Fault | Mapped(frame: nat, user: bool, writable: bool)

  /** What the processor makes of `va` under directory `d` (section 4.6 of the Intel SDM, volume 3A): user access needs U/S
      in both entries, and a write needs R/W in both, in supervisor mode too as CR0.WP is set. */
  function Translate(ram: Ram, d: nat, va: u32): Translation
    requires d < |ram|
  {
    var pde := ram[d][va / 0x40_0000];
    if !Present(pde) || FrameNo(pde) >= |ram| then Fault
    else
      var pte := ram[FrameNo(pde)][va / PAGE_SIZE % ENTRIES];
      if !Present(pte) then Fault else Mapped(FrameNo(pte), UserBit(pde) && UserBit(pte), Writable(pde) && Writable(pte))
  }

  // ---------------------------------------------------------------- ownership

  /** What a frame taken from the pool is used for. */
  datatype Owner = Directory | Table(dir: nat) | Page(dir: nat, slot: nat)

  type Owners = map<nat, Owner>

  predicate IsDir(owner: Owners, d: nat) {
    d in owner && owner[d] == Directory
  }

  /** The directory frame on whose behalf `f` was taken. */
  function DirOf(owner: Owners, f: nat): nat
    requires f in owner
  {
    match owner[f]
    case Directory => f
    case Table(d) => d
    case Page(d, _) => d
  }

  function OwnedBy(owner: Owners, d: nat): set<nat> {
    set f | f in owner && DirOf(owner, f) == d
  }

  /** The table of the ring-3 window. */
  function WindowTable(ram: Ram, d: nat): nat
    requires d < |ram|
  {
    FrameNo(ram[d][USER_PDE])
  }

  /** A table entry of process `d`: absent, or a user page that belongs to this very slot. */
  predicate EntryOk(w: u32, d: nat, j: nat, owner: Owners) {
    w == 0 || (FrameNo(w) < FRAME_LIMIT && FrameNo(w) in owner && owner[FrameNo(w)] == Page(d, j) && w == UserEntry(FrameNo(w)))
  }

  /** Process directory `d`: the kernel's entries, with its own table in the window. */
  ghost predicate SpaceOk(ram: Ram, kdir: nat, owner: Owners, d: nat)
    requires kdir < |ram|
  {
    && d < |ram| && WindowTable(ram, d) < |ram| && WindowTable(ram, d) < FRAME_LIMIT
    && ram[d][USER_PDE] == UserEntry(WindowTable(ram, d))
    && WindowTable(ram, d) in owner && owner[WindowTable(ram, d)] == Table(d)
    && (forall i :: 0 <= i < ENTRIES && i != USER_PDE ==> ram[d][i] == ram[kdir][i])
    && (forall j :: 0 <= j < ENTRIES ==> EntryOk(ram[WindowTable(ram, d)][j], d, j, owner))
  }

  /** Every owned frame is where its owner says it is. */
  predicate OwnerOk(ram: Ram, owner: Owners, f: nat)
    requires f in owner
  {
    && f < |ram| && f < FRAME_LIMIT
    && match owner[f]
       case Directory => true
       case Table(d) => IsDir(owner, d) && d < |ram| && WindowTable(ram, d) == f
       case Page(d, j) =>
         IsDir(owner, d) && d < |ram| && WindowTable(ram, d) < |ram| && j < ENTRIES && ram[WindowTable(ram, d)][j] == UserEntry(f)
  }

  /** The kernel directory: no entry for the window, writable supervisor entries elsewhere, tables that are never freed. */
  ghost predicate KernelOk(ram: Ram, kdir: nat, boot: set<nat>) {
    && kdir < |ram| && kdir in boot && 0 in boot
    && !Present(ram[kdir][USER_PDE])
    && (forall i :: 0 <= i < ENTRIES && Present(ram[kdir][i]) ==>
          !UserBit(ram[kdir][i]) && Writable(ram[kdir][i]) && FrameNo(ram[kdir][i]) in boot && FrameNo(ram[kdir][i]) < |ram|)
  }

  /** Frame `f` is identity-mapped by the kernel directory, outside the window. */
  predicate KernelMaps(ram: Ram, kdir: nat, f: nat)
    requires kdir < |ram| && f < FRAME_LIMIT
  {
    && f / ENTRIES != USER_PDE && Present(ram[kdir][f / ENTRIES]) && FrameNo(ram[kdir][f / ENTRIES]) < |ram|
    && ram[FrameNo(ram[kdir][f / ENTRIES])][f % ENTRIES] == KernelEntry(f)
  }

  /** The frames the allocator may hand out after boot. */
  function Pool(n: nat, boot: set<nat>): set<nat> {
    set f: nat | f < n && f !in boot
  }

  ghost predicate SpacesOk(ram: Ram, kdir: nat, n: nat, boot: set<nat>, owner: Owners) {
    && n <= |ram| && n < FRAME_LIMIT
    && KernelOk(ram, kdir, boot)
    && owner.Keys <= Pool(n, boot)
    && (forall f :: f in Pool(n, boot) ==> KernelMaps(ram, kdir, f))
    && (forall f :: f in owner ==> OwnerOk(ram, owner, f))
    && (forall d :: IsDir(owner, d) ==> SpaceOk(ram, kdir, owner, d))
  }

  // ---------------------------------------------------------------- isolation

  /** A user-mode translation exists only inside the ring-3 window, only for a live process, and leads to
      a writable page owned by that process at that slot. */
  lemma UserTranslationsAreOwned(ram: Ram, kdir: nat, n: nat, boot: set<nat>, owner: Owners, d: nat, va: u32)
    requires SpacesOk(ram, kdir, n, boot, owner) && (d == kdir || IsDir(owner, d))
    requires Translate(ram, d, va).Mapped? && Translate(ram, d, va).user
    ensures USER_BASE <= va < USER_TOP && d != kdir && Translate(ram, d, va).writable
    ensures var f := Translate(ram, d, va).frame;
            f in owner && owner[f] == Page(d, va / PAGE_SIZE % ENTRIES) && f !in boot
  {
    WindowIsOneDirectoryEntry(va);
    if d != kdir {
      assert SpaceOk(ram, kdir, owner, d);
      if va / 0x40_0000 == USER_PDE {
        assert EntryOk(ram[WindowTable(ram, d)][va / PAGE_SIZE % ENTRIES], d, va / PAGE_SIZE % ENTRIES, owner);
        EntryBits(WindowTable(ram, d));
        EntryBits(Translate(ram, d, va).frame);
      }
    }
  }

  /** No frame is visible to two processes, or twice to one. */
  lemma UserFramesAreDisjoint(ram: Ram, kdir: nat, n: nat, boot: set<nat>, owner: Owners, d: nat, va: u32, e: nat, vb: u32)
    requires SpacesOk(ram, kdir, n, boot, owner) && IsDir(owner, d) && IsDir(owner, e)
    requires Translate(ram, d, va).Mapped? && Translate(ram, d, va).user
    requires Translate(ram, e, vb).Mapped? && Translate(ram, e, vb).user
    requires Translate(ram, d, va).frame == Translate(ram, e, vb).frame
    ensures d == e && va / PAGE_SIZE == vb / PAGE_SIZE
  {
    hide SpacesOk, Translate;
    UserTranslationsAreOwned(ram, kdir, n, boot, owner, d, va);
    UserTranslationsAreOwned(ram, kdir, n, boot, owner, e, vb);
  }

  /** No user page is a directory, a page table, or kernel memory: user stores cannot change a translation. */
  lemma UserFramesHoldNoTables(ram: Ram, kdir: nat, n: nat, boot: set<nat>, owner: Owners, d: nat, va: u32, e: nat, i: nat)
    requires SpacesOk(ram, kdir, n, boot, owner) && (d == kdir || IsDir(owner, d)) && (e == kdir || IsDir(owner, e))
    requires Translate(ram, d, va).Mapped? && Translate(ram, d, va).user && i < ENTRIES
    ensures Translate(ram, d, va).frame != e
    ensures Present(ram[e][i]) ==> Translate(ram, d, va).frame != FrameNo(ram[e][i])
  {
    UserTranslationsAreOwned(ram, kdir, n, boot, owner, d, va);
    if e != kdir {
      assert SpaceOk(ram, kdir, owner, e);
    }
  }

  /** In every address space the kernel reads and writes every frame of the pool at its physical address, and it alone. */
  lemma KernelReachesPool(ram: Ram, kdir: nat, n: nat, boot: set<nat>, owner: Owners, d: nat, f: nat)
    requires SpacesOk(ram, kdir, n, boot, owner) && (d == kdir || IsDir(owner, d)) && f in Pool(n, boot)
    ensures Translate(ram, d, f * PAGE_SIZE) == Mapped(f, false, true)
  {
    assert KernelMaps(ram, kdir, f);
    EntryBits(f);
    var va: u32 := f * PAGE_SIZE;
    assert va / 0x40_0000 == f / ENTRIES && va / PAGE_SIZE == f;
    if d != kdir {
      assert SpaceOk(ram, kdir, owner, d);
    }
  }

  /** Outside the window every process translates as the kernel does. */
  lemma KernelMapIsShared(ram: Ram, kdir: nat, n: nat, boot: set<nat>, owner: Owners, d: nat, va: u32)
    requires SpacesOk(ram, kdir, n, boot, owner) && IsDir(owner, d) && !(USER_BASE <= va < USER_TOP)
    ensures d < |ram| && kdir < |ram| && Translate(ram, d, va) == Translate(ram, kdir, va)
  {
    WindowIsOneDirectoryEntry(va);
    assert SpaceOk(ram, kdir, owner, d);
  }

  // ---------------------------------------------------------------- single steps

  /** Writing to a free frame or to a user page changes no address space. */
  lemma DataWrite(ram: Ram, kdir: nat, n: nat, boot: set<nat>, owner: Owners, x: nat, content: Frame)
    requires SpacesOk(ram, kdir, n, boot, owner) && x in Pool(n, boot) && (x in owner ==> owner[x].Page?)
    ensures SpacesOk(ram[x := content], kdir, n, boot, owner)
    ensures forall d, va: u32 :: d == kdir || IsDir(owner, d) ==> Translate(ram[x := content], d, va) == Translate(ram, d, va)
  {
    hide EntryOk;
    var ram' := ram[x := content];
    forall f | f in Pool(n, boot)
      ensures KernelMaps(ram', kdir, f)
    {
      assert KernelMaps(ram, kdir, f);
    }
    forall f | f in owner
      ensures OwnerOk(ram', owner, f)
    {
      assert OwnerOk(ram, owner, f);
      if owner[f].Page? {
        assert SpaceOk(ram, kdir, owner, owner[f].dir);
      }
    }
    forall d | IsDir(owner, d)
      ensures SpaceOk(ram', kdir, owner, d)
    {
      assert SpaceOk(ram, kdir, owner, d);
    }
    forall d, va: u32 | d == kdir || IsDir(owner, d)
      ensures Translate(ram', d, va) == Translate(ram, d, va)
    {
      if d != kdir {
        assert SpaceOk(ram, kdir, owner, d);
      }
    }
  }

  /** A process whose directory, table and owned frames are untouched is still in order. */
  lemma SpaceKept(ram: Ram, ram': Ram, kdir: nat, owner: Owners, owner': Owners, e: nat)
    requires |ram'| == |ram| && kdir < |ram| && SpaceOk(ram, kdir, owner, e)
    requires ram'[e] == ram[e] && ram'[kdir] == ram[kdir] && ram'[WindowTable(ram, e)] == ram[WindowTable(ram, e)]
    requires forall f :: f in owner && DirOf(owner, f) == e ==> f in owner' && owner'[f] == owner[f]
    ensures SpaceOk(ram', kdir, owner', e)
  {
    forall k | 0 <= k < ENTRIES
      ensures EntryOk(ram'[WindowTable(ram', e)][k], e, k, owner')
    {
      assert EntryOk(ram[WindowTable(ram, e)][k], e, k, owner);
    }
  }

  lemma DirFacts(ram: Ram, kdir: nat, n: nat, boot: set<nat>, owner: Owners, e: nat)
    requires SpacesOk(ram, kdir, n, boot, owner) && IsDir(owner, e)
    ensures SpaceOk(ram, kdir, owner, e) && e in Pool(n, boot) && e < |ram| && e < n && WindowTable(ram, e) < n
    ensures var t := WindowTable(ram, e); t < |ram| && t in owner && owner[t] == Table(e) && t in Pool(n, boot)
  {
    assert SpaceOk(ram, kdir, owner, e);
  }

  /** The kernel's map of the pool does not depend on the pool's own contents. */
  lemma KernelMapsKept(ram: Ram, ram': Ram, kdir: nat, n: nat, boot: set<nat>, owner: Owners)
    requires SpacesOk(ram, kdir, n, boot, owner) && |ram'| == |ram|
    requires forall f :: f in boot && f < |ram| ==> ram'[f] == ram[f]
    ensures KernelOk(ram', kdir, boot) && forall f :: f in Pool(n, boot) ==> KernelMaps(ram', kdir, f)
  {
    forall f | f in Pool(n, boot)
      ensures KernelMaps(ram', kdir, f)
    {
      assert KernelMaps(ram, kdir, f);
    }
  }

  /** vm_create: a directory that copies the kernel's entries and an empty table for the window. */
  lemma CreateStep(ram: Ram, kdir: nat, n: nat, boot: set<nat>, owner: Owners, d: nat, t: nat)
    requires SpacesOk(ram, kdir, n, boot, owner) && d != t
    requires d in Pool(n, boot) && t in Pool(n, boot) && d !in owner && t !in owner
    requires ram[d] == ram[kdir] && ram[t] == Zeros()
    ensures SpacesOk(ram[d := ram[d][USER_PDE := UserEntry(t)]], kdir, n, boot, owner[d := Directory][t := Table(d)])
  {
    hide KernelOk, KernelMaps, OwnerOk, SpaceOk;
    var ram' := ram[d := ram[d][USER_PDE := UserEntry(t)]];
    var owner' := owner[d := Directory][t := Table(d)];
    KernelMapsKept(ram, ram', kdir, n, boot, owner);
    forall f | f in owner'
      ensures OwnerOk(ram', owner', f)
    {
      CreateOwner(ram, kdir, n, boot, owner, d, t, f);
    }
    forall e | IsDir(owner', e)
      ensures SpaceOk(ram', kdir, owner', e)
    {
      CreateSpace(ram, kdir, n, boot, owner, d, t, e);
    }
  }

  lemma CreateOwner(ram: Ram, kdir: nat, n: nat, boot: set<nat>, owner: Owners, d: nat, t: nat, f: nat)
    requires SpacesOk(ram, kdir, n, boot, owner) && d != t
    requires d in Pool(n, boot) && t in Pool(n, boot) && d !in owner && t !in owner
    requires f in owner[d := Directory][t := Table(d)]
    ensures OwnerOk(ram[d := ram[d][USER_PDE := UserEntry(t)]], owner[d := Directory][t := Table(d)], f)
  {
    hide SpaceOk, KernelMaps;
    var ram' := ram[d := ram[d][USER_PDE := UserEntry(t)]];
    EntryBits(t);
    if f in owner {
      assert OwnerOk(ram, owner, f);
      if IsDir(owner, DirOf(owner, f)) {
        DirFacts(ram, kdir, n, boot, owner, DirOf(owner, f));
      }
    }
  }

  lemma CreateSpace(ram: Ram, kdir: nat, n: nat, boot: set<nat>, owner: Owners, d: nat, t: nat, e: nat)
    requires SpacesOk(ram, kdir, n, boot, owner) && d != t
    requires d in Pool(n, boot) && t in Pool(n, boot) && d !in owner && t !in owner
    requires ram[d] == ram[kdir] && ram[t] == Zeros() && IsDir(owner[d := Directory][t := Table(d)], e)
    ensures SpaceOk(ram[d := ram[d][USER_PDE := UserEntry(t)]], kdir, owner[d := Directory][t := Table(d)], e)
  {
    hide OwnerOk, KernelMaps;
    var ram' := ram[d := ram[d][USER_PDE := UserEntry(t)]];
    if e == d {
      EntryBits(t);
    } else {
      DirFacts(ram, kdir, n, boot, owner, e);
      SpaceKept(ram, ram', kdir, owner, owner[d := Directory][t := Table(d)], e);
    }
  }

  /** vm_fault: one absent slot of one process gets one page of the pool. */
  lemma FaultStep(ram: Ram, kdir: nat, n: nat, boot: set<nat>, owner: Owners, d: nat, j: nat, f: nat)
    requires SpacesOk(ram, kdir, n, boot, owner) && IsDir(owner, d) && j < ENTRIES
    requires f in Pool(n, boot) && f !in owner && SpaceOk(ram, kdir, owner, d) && !Present(ram[WindowTable(ram, d)][j])
    ensures var t := WindowTable(ram, d);
            SpacesOk(ram[t := ram[t][j := UserEntry(f)]], kdir, n, boot, owner[f := Page(d, j)])
  {
    hide KernelOk, KernelMaps, OwnerOk, SpaceOk;
    DirFacts(ram, kdir, n, boot, owner, d);
    var t := WindowTable(ram, d);
    var ram' := ram[t := ram[t][j := UserEntry(f)]];
    var owner' := owner[f := Page(d, j)];
    KernelMapsKept(ram, ram', kdir, n, boot, owner);
    forall g | g in owner'
      ensures OwnerOk(ram', owner', g)
    {
      FaultOwner(ram, kdir, n, boot, owner, d, j, f, g);
    }
    forall e | IsDir(owner', e)
      ensures SpaceOk(ram', kdir, owner', e)
    {
      DirFacts(ram, kdir, n, boot, owner, e);
      if e == d {
        KernelNotOwned(ram, kdir, n, boot, owner);
        FaultTarget(ram, kdir, owner, d, j, f);
      } else {
        KernelNotOwned(ram, kdir, n, boot, owner);
        SpaceKept(ram, ram', kdir, owner, owner', e);
      }
    }
  }

  lemma KernelNotOwned(ram: Ram, kdir: nat, n: nat, boot: set<nat>, owner: Owners)
    requires SpacesOk(ram, kdir, n, boot, owner)
    ensures kdir !in owner && kdir < |ram| && kdir !in Pool(n, boot) && 0 !in Pool(n, boot) && Pool(n, boot) <= PageRange(0, |ram|)
  {
  }

  lemma FaultOwner(ram: Ram, kdir: nat, n: nat, boot: set<nat>, owner: Owners, d: nat, j: nat, f: nat, g: nat)
    requires SpacesOk(ram, kdir, n, boot, owner) && IsDir(owner, d) && j < ENTRIES
    requires f in Pool(n, boot) && f !in owner && SpaceOk(ram, kdir, owner, d) && !Present(ram[WindowTable(ram, d)][j])
    requires g in owner[f := Page(d, j)]
    ensures var t := WindowTable(ram, d);
            OwnerOk(ram[t := ram[t][j := UserEntry(f)]], owner[f := Page(d, j)], g)
  {
    hide SpaceOk, KernelMaps;
    EntryBits(g);
    DirFacts(ram, kdir, n, boot, owner, d);
    if g in owner {
      assert OwnerOk(ram, owner, g);
      if IsDir(owner, DirOf(owner, g)) {
        DirFacts(ram, kdir, n, boot, owner, DirOf(owner, g));
      }
    }
  }

  /** The faulting process itself after the new entry. */
  lemma FaultTarget(ram: Ram, kdir: nat, owner: Owners, d: nat, j: nat, f: nat)
    requires kdir < |ram| && SpaceOk(ram, kdir, owner, d) && j < ENTRIES && f < FRAME_LIMIT && f !in owner
    requires kdir != WindowTable(ram, d) && d != WindowTable(ram, d)
    ensures var t := WindowTable(ram, d);
            SpaceOk(ram[t := ram[t][j := UserEntry(f)]], kdir, owner[f := Page(d, j)], d)
  {
    var t := WindowTable(ram, d);
    var ram' := ram[t := ram[t][j := UserEntry(f)]];
    var owner' := owner[f := Page(d, j)];
    EntryBits(f);
    forall k | 0 <= k < ENTRIES
      ensures EntryOk(ram'[t][k], d, k, owner')
    {
      assert EntryOk(ram[t][k], d, k, owner);
    }
  }

  /** vm_destroy: everything taken on behalf of `d` is given up, nothing else changes. */
  lemma DestroyStep(ram: Ram, kdir: nat, n: nat, boot: set<nat>, owner: Owners, d: nat)
    requires SpacesOk(ram, kdir, n, boot, owner) && IsDir(owner, d)
    ensures SpacesOk(ram[d := ram[d][USER_PDE := 0]], kdir, n, boot, owner - OwnedBy(owner, d))
    ensures OwnedBy(owner, d) == {d, WindowTable(ram, d)} + PagesOf(ram, d)
  {
    var ram' := ram[d := ram[d][USER_PDE := 0]];
    var owner' := owner - OwnedBy(owner, d);
    DirFacts(ram, kdir, n, boot, owner, d);
    KernelMapsKept(ram, ram', kdir, n, boot, owner);
    forall g | g in owner'
      ensures OwnerOk(ram', owner', g)
    {
      assert OwnerOk(ram, owner, g);
      if owner[g].Page? {
        assert SpaceOk(ram, kdir, owner, owner[g].dir);
      }
    }
    forall e | IsDir(owner', e)
      ensures SpaceOk(ram', kdir, owner', e)
    {
      hide SpaceOk;
      DirFacts(ram, kdir, n, boot, owner, e);
      SpaceKept(ram, ram', kdir, owner, owner', e);
    }
    OwnedByIs(ram, kdir, n, boot, owner, d);
  }

  /** The pages present in the window of `d`. */
  function PagesOf(ram: Ram, d: nat): set<nat>
    requires d < |ram| && WindowTable(ram, d) < |ram|
  {
    set j | 0 <= j < ENTRIES && Present(ram[WindowTable(ram, d)][j]) :: FrameNo(ram[WindowTable(ram, d)][j])
  }

  lemma OwnedByIs(ram: Ram, kdir: nat, n: nat, boot: set<nat>, owner: Owners, d: nat)
    requires SpacesOk(ram, kdir, n, boot, owner) && IsDir(owner, d)
    ensures d < |ram| && WindowTable(ram, d) < |ram|
    ensures OwnedBy(owner, d) == {d, WindowTable(ram, d)} + PagesOf(ram, d)
  {
    assert SpaceOk(ram, kdir, owner, d);
    var t := WindowTable(ram, d);
    forall f | f in OwnedBy(owner, d)
      ensures f in {d, t} + PagesOf(ram, d)
    {
      assert OwnerOk(ram, owner, f);
      if owner[f].Page? {
        EntryBits(f);
        assert Present(ram[t][owner[f].slot]) && FrameNo(ram[t][owner[f].slot]) == f;
      }
    }
    forall f | f in PagesOf(ram, d)
      ensures f in OwnedBy(owner, d)
    {
      var j :| 0 <= j < ENTRIES && Present(ram[t][j]) && FrameNo(ram[t][j]) == f;
      assert EntryOk(ram[t][j], d, j, owner);
    }
  }

  // ---------------------------------------------------------------- what the operations report

  /** Two frames of `free` became the directory `d` and its empty window table. */
  ghost predicate Created(free: set<nat>, owner: Owners, owner': Owners, ram: Ram, d: nat) {
    exists t :: Fresh(free, owner, owner', ram, d, t)
  }

  predicate Fresh(free: set<nat>, owner: Owners, owner': Owners, ram: Ram, d: nat, t: nat) {
    && d in free && t in free && d != t && d < |ram| && t < |ram| && t < FRAME_LIMIT
    && owner' == owner[d := Directory][t := Table(d)]
    && ram[d][USER_PDE] == UserEntry(t) && ram[t] == Zeros()
  }

  /** The address spaces that existed before translate as they did. */
  ghost predicate SameTranslations(ram: Ram, ram': Ram, kdir: nat, owner: Owners)
    requires |ram'| == |ram|
  {
    forall e: nat, va: u32 :: (e == kdir || IsDir(owner, e)) && e < |ram| ==> Translate(ram', e, va) == Translate(ram, e, va)
  }

  /** What the processes have stored is still there. */
  ghost predicate PagesKept(ram: Ram, ram': Ram, owner: Owners)
    requires |ram'| == |ram|
  {
    forall g :: g in owner && owner[g].Page? && g < |ram| ==> ram'[g] == ram[g]
  }

  lemma PagesKeptTrans(a: Ram, b: Ram, c: Ram, owner: Owners)
    requires |a| == |b| == |c| && PagesKept(a, b, owner) && PagesKept(b, c, owner)
    ensures PagesKept(a, c, owner)
  {
  }

  lemma CreateKeepsTranslations(ram: Ram, kdir: nat, n: nat, boot: set<nat>, owner: Owners, d: nat, content: Frame)
    requires SpacesOk(ram, kdir, n, boot, owner) && d in Pool(n, boot) && d !in owner
    ensures SameTranslations(ram, ram[d := content], kdir, owner)
  {
    hide SpacesOk, Translate;
    KernelNotOwned(ram, kdir, n, boot, owner);
    DataWrite(ram, kdir, n, boot, owner, d, content);
  }

  lemma SameTranslationsRefl(a: Ram, kdir: nat, owner: Owners)
    ensures SameTranslations(a, a, kdir, owner)
  {
  }

  lemma SameTranslationsTrans(a: Ram, b: Ram, c: Ram, kdir: nat, owner: Owners)
    requires |a| == |b| == |c| && SameTranslations(a, b, kdir, owner) && SameTranslations(b, c, kdir, owner)
    ensures SameTranslations(a, c, kdir, owner)
  {
    hide Translate;
  }

  /** Frame `f` of `free` became the zero-filled user page behind `addr` in directory `d`; no other translation changed. */
  ghost predicate PageAdded(free: set<nat>, owner: Owners, owner': Owners, ram: Ram, ram': Ram, kdir: nat, d: nat, addr: u32, f: nat) {
    && f in free && f < |ram| == |ram'| && d < |ram|
    && owner' == owner[f := Page(d, addr / PAGE_SIZE % ENTRIES)]
    && ram'[f] == Zeros() && PagesKept(ram, ram', owner)
    && Translate(ram', d, addr) == Mapped(f, true, true)
    && (forall e: nat, va: u32 :: (e == kdir || IsDir(owner, e)) && e < |ram| && !(e == d && SamePage(va, addr)) ==>
          Translate(ram', e, va) == Translate(ram, e, va))
  }

  predicate SamePage(va: u32, vb: u32) {
    va / PAGE_SIZE == vb / PAGE_SIZE
  }

  /** In the window a live process translates through its own table. */
  lemma WindowTranslation(ram: Ram, kdir: nat, n: nat, boot: set<nat>, owner: Owners, d: nat, va: u32)
    requires SpacesOk(ram, kdir, n, boot, owner) && IsDir(owner, d) && USER_BASE <= va < USER_TOP
    ensures d < |ram| && WindowTable(ram, d) < |ram|
    ensures Translate(ram, d, va) == var w := ram[WindowTable(ram, d)][va / PAGE_SIZE % ENTRIES];
              if Present(w) then Mapped(FrameNo(w), true, true) else Translation.Fault
  {
    WindowIsOneDirectoryEntry(va);
    assert SpaceOk(ram, kdir, owner, d);
    EntryBits(WindowTable(ram, d));
    var j := va / PAGE_SIZE % ENTRIES;
    assert EntryOk(ram[WindowTable(ram, d)][j], d, j, owner);
    if Present(ram[WindowTable(ram, d)][j]) {
      EntryBits(FrameNo(ram[WindowTable(ram, d)][j]));
    }
  }

  /** The kernel directory maps nothing in the window. */
  lemma KernelWindowFaults(ram: Ram, kdir: nat, n: nat, boot: set<nat>, owner: Owners, va: u32)
    requires SpacesOk(ram, kdir, n, boot, owner) && USER_BASE <= va < USER_TOP
    ensures !Present(ram[kdir][va / 0x40_0000]) && Translate(ram, kdir, va) == Translation.Fault
  {
    WindowIsOneDirectoryEntry(va);
  }

  /** The table update of vm_fault adds exactly one translation. */
  lemma FaultTranslations(ram: Ram, kdir: nat, n: nat, boot: set<nat>, owner: Owners, d: nat, addr: u32, f: nat)
    requires SpacesOk(ram, kdir, n, boot, owner) && IsDir(owner, d) && USER_BASE <= addr < USER_TOP
    requires f in Pool(n, boot) && f !in owner && ram[f] == Zeros() && Translate(ram, d, addr) == Translation.Fault
    ensures d < |ram| && WindowTable(ram, d) < |ram|
    ensures var t, j := WindowTable(ram, d), addr / PAGE_SIZE % ENTRIES;
            PageAdded({f}, owner, owner[f := Page(d, j)], ram, ram[t := ram[t][j := UserEntry(f)]], kdir, d, addr, f)
  {
    DirFacts(ram, kdir, n, boot, owner, d);
    var t, j := WindowTable(ram, d), addr / PAGE_SIZE % ENTRIES;
    var ram' := ram[t := ram[t][j := UserEntry(f)]];
    WindowIsOneDirectoryEntry(addr);
    EntryBits(f);
    EntryBits(t);
    KernelNotOwned(ram, kdir, n, boot, owner);
    forall e: nat, va: u32 | (e == kdir || IsDir(owner, e)) && e < |ram| && !(e == d && SamePage(va, addr))
      ensures Translate(ram', e, va) == Translate(ram, e, va)
    {
      OtherTranslation(ram, kdir, n, boot, owner, d, addr, e, va, ram'[t]);
    }
  }

  lemma OtherTranslation(ram: Ram, kdir: nat, n: nat, boot: set<nat>, owner: Owners, d: nat, addr: u32, e: nat, va: u32, table: Frame)
    requires SpacesOk(ram, kdir, n, boot, owner) && IsDir(owner, d) && USER_BASE <= addr < USER_TOP
    requires (e == kdir || IsDir(owner, e)) && e < |ram| && !(e == d && SamePage(va, addr))
    requires d < |ram| && WindowTable(ram, d) < |ram|
    requires forall k :: 0 <= k < ENTRIES && k != addr / PAGE_SIZE % ENTRIES ==> table[k] == ram[WindowTable(ram, d)][k]
    ensures Translate(ram[WindowTable(ram, d) := table], e, va) == Translate(ram, e, va)
  {
    DirFacts(ram, kdir, n, boot, owner, d);
    KernelNotOwned(ram, kdir, n, boot, owner);
    WindowIsOneDirectoryEntry(va);
    WindowIsOneDirectoryEntry(addr);
    if e != kdir {
      DirFacts(ram, kdir, n, boot, owner, e);
    }
    if e == d && va / 0x40_0000 == USER_PDE {
      assert va / PAGE_SIZE % ENTRIES != addr / PAGE_SIZE % ENTRIES by {
        PageInWindow(va);
        PageInWindow(addr);
      }
    }
  }

  lemma PageInWindow(va: u32)
    requires va / 0x40_0000 == USER_PDE
    ensures va / PAGE_SIZE == ENTRIES + va / PAGE_SIZE % ENTRIES
  {
  }

  /** Zero-filling `f` first and then linking it: the two steps of vm_fault together. */
  lemma FaultSteps(start: Ram, ram: Ram, free: set<nat>, kdir: nat, n: nat, boot: set<nat>, owner: Owners, d: nat, addr: u32, f: nat)
    requires SpacesOk(ram, kdir, n, boot, owner) && IsDir(owner, d) && USER_BASE <= addr < USER_TOP && |start| == |ram|
    requires f in free && f in Pool(n, boot) && f !in owner && ram[f] == Zeros() && Translate(ram, d, addr) == Translation.Fault
    requires SameTranslations(start, ram, kdir, owner) && PagesKept(start, ram, owner)
    ensures d < |ram| && WindowTable(ram, d) < |ram|
    ensures var t, j := WindowTable(ram, d), addr / PAGE_SIZE % ENTRIES;
            var ram' := ram[t := ram[t][j := UserEntry(f)]];
            && SpacesOk(ram', kdir, n, boot, owner[f := Page(d, j)])
            && PageAdded(free, owner, owner[f := Page(d, j)], start, ram', kdir, d, addr, f)
  {
    hide SpacesOk;
    DirFacts(ram, kdir, n, boot, owner, d);
    WindowTranslation(ram, kdir, n, boot, owner, d, addr);
    FaultTranslations(ram, kdir, n, boot, owner, d, addr, f);
    FaultStep(ram, kdir, n, boot, owner, d, addr / PAGE_SIZE % ENTRIES, f);
    hide Translate;
  }

  /** The pages of the first `k` slots. */
  function PagesBelow(table: Frame, k: nat): (s: set<nat>)
    requires k <= ENTRIES
  {
    if k == 0 then {}
    else if Present(table[k - 1]) then PagesBelow(table, k - 1) + {FrameNo(table[k - 1])}
    else PagesBelow(table, k - 1)
  }

  lemma PagesBelowStep(table: Frame, k: nat)
    requires k < ENTRIES
    ensures PagesBelow(table, 0) == {}
    ensures PagesBelow(table, k + 1) == if Present(table[k]) then PagesBelow(table, k) + {FrameNo(table[k])} else PagesBelow(table, k)
  {
  }

  lemma {:induction false} PagesBelowIs(table: Frame, k: nat)
    requires k <= ENTRIES
    ensures PagesBelow(table, k) == set j | 0 <= j < k && Present(table[j]) :: FrameNo(table[j])
  {
    if k > 0 {
      PagesBelowIs(table, k - 1);
    }
  }

  /** A process never holds more than 1024 pages. */
  lemma {:induction false} PagesBelowCount(table: Frame, k: nat)
    requires k <= ENTRIES
    ensures |PagesBelow(table, k)| <= k
  {
    if k > 0 {
      PagesBelowCount(table, k - 1);
    }
  }

  /** After vm_destroy the frames of `d` are back in the pool. */
  lemma FramesReturned(ram: Ram, kdir: nat, n: nat, boot: set<nat>, owner: Owners, d: nat)
    requires SpacesOk(ram, kdir, n, boot, owner) && IsDir(owner, d)
    ensures d < |ram| && WindowTable(ram, d) < |ram|
    ensures Pool(n, boot) - owner.Keys + PagesBelow(ram[WindowTable(ram, d)], ENTRIES) + {WindowTable(ram, d)} + {d}
            == Pool(n, boot) - (owner - OwnedBy(owner, d)).Keys
  {
    OwnedByIs(ram, kdir, n, boot, owner, d);
    PagesBelowIs(ram[WindowTable(ram, d)], ENTRIES);
    assert PagesBelow(ram[WindowTable(ram, d)], ENTRIES) == PagesOf(ram, d);
    assert (owner - OwnedBy(owner, d)).Keys == owner.Keys - OwnedBy(owner, d);
  }

  /** Destroying one process leaves the translations of all others alone. */
  lemma DestroyTranslations(ram: Ram, kdir: nat, n: nat, boot: set<nat>, owner: Owners, d: nat)
    requires SpacesOk(ram, kdir, n, boot, owner) && IsDir(owner, d)
    ensures d < |ram|
    ensures SameTranslations(ram, ram[d := ram[d][USER_PDE := 0]], kdir, owner - OwnedBy(owner, d))
  {
    DirFacts(ram, kdir, n, boot, owner, d);
    KernelNotOwned(ram, kdir, n, boot, owner);
    var ram' := ram[d := ram[d][USER_PDE := 0]];
    forall e: nat, va: u32 | (e == kdir || IsDir(owner - OwnedBy(owner, d), e)) && e < |ram|
      ensures Translate(ram', e, va) == Translate(ram, e, va)
    {
      assert e != d;
      if e != kdir {
        DirFacts(ram, kdir, n, boot, owner, e);
      }
    }
  }

  lemma DirectoryHoldsNoPage(ram: Ram, kdir: nat, n: nat, boot: set<nat>, owner: Owners, d: nat)
    requires SpacesOk(ram, kdir, n, boot, owner) && IsDir(owner, d)
    ensures d < |ram| && PagesKept(ram, ram[d := ram[d][USER_PDE := 0]], owner - OwnedBy(owner, d))
  {
    DirFacts(ram, kdir, n, boot, owner, d);
  }

  lemma OwnedInPool(ram: Ram, kdir: nat, n: nat, boot: set<nat>, owner: Owners, f: nat)
    requires SpacesOk(ram, kdir, n, boot, owner) && f in owner
    ensures f in Pool(n, boot) && f < |ram| && f < n
  {
  }

  lemma DataKeepsTranslations(ram: Ram, kdir: nat, n: nat, boot: set<nat>, owner: Owners, x: nat, content: Frame)
    requires SpacesOk(ram, kdir, n, boot, owner) && x in Pool(n, boot) && (x in owner ==> owner[x].Page?)
    ensures x < |ram| && SameTranslations(ram, ram[x := content], kdir, owner)
  {
    hide SpacesOk, Translate;
    KernelNotOwned(ram, kdir, n, boot, owner);
    DataWrite(ram, kdir, n, boot, owner, x, content);
  }

  predicate PagesInRange(table: Frame, n: nat) {
    forall j :: 0 <= j < ENTRIES && Present(table[j]) ==> FrameNo(table[j]) < n
  }

  lemma DirNotOwnedByOther(ram: Ram, kdir: nat, n: nat, boot: set<nat>, owner: Owners, d: nat, e: nat)
    requires SpacesOk(ram, kdir, n, boot, owner) && IsDir(owner, d)
    ensures IsDir(owner, e) && e != d ==> IsDir(owner - OwnedBy(owner, d), e)
    ensures d < |ram| && WindowTable(ram, d) < |ram| && PagesInRange(ram[WindowTable(ram, d)], n)
  {
    DirFacts(ram, kdir, n, boot, owner, d);
    forall j | 0 <= j < ENTRIES && Present(ram[WindowTable(ram, d)][j])
      ensures FrameNo(ram[WindowTable(ram, d)][j]) < n
    {
      assert EntryOk(ram[WindowTable(ram, d)][j], d, j, owner);
    }
  }

  /** What vm_fault finds on its way down the tables of directory `d`. */
  lemma FaultLookup(ram: Ram, kdir: nat, n: nat, boot: set<nat>, owner: Owners, d: nat, addr: u32)
    requires SpacesOk(ram, kdir, n, boot, owner) && d < |ram| && (d == kdir || IsDir(owner, d)) && USER_BASE <= addr < USER_TOP
    ensures var w := ram[d][addr / 0x40_0000];
            && (Present(w) <==> IsDir(owner, d))
            && (Present(w) ==> FrameNo(w) < |ram| && FrameNo(w) in owner && !owner[FrameNo(w)].Page?)
            && (Present(w) ==> (Translate(ram, d, addr) == Translation.Fault <==> !Present(ram[FrameNo(w)][addr / PAGE_SIZE % ENTRIES])))
  {
    hide SpacesOk, Pool, Translate, SpaceOk;
    KernelNotOwned(ram, kdir, n, boot, owner);
    WindowIsOneDirectoryEntry(addr);
    if IsDir(owner, d) {
      WindowTranslation(ram, kdir, n, boot, owner, d, addr);
      DirFacts(ram, kdir, n, boot, owner, d);
      WindowPresent(ram, kdir, owner, d);
    } else {
      KernelWindowFaults(ram, kdir, n, boot, owner, addr);
    }
  }

  lemma WindowPresent(ram: Ram, kdir: nat, owner: Owners, d: nat)
    requires kdir < |ram| && SpaceOk(ram, kdir, owner, d)
    ensures Present(ram[d][USER_PDE])
  {
    EntryBits(WindowTable(ram, d));
  }

  // ---------------------------------------------------------------- the life of one process

  /** Page `j` of the window is mapped. */
  predicate SlotMapped(ram: Ram, d: nat, j: nat)
    requires d < |ram| && j < ENTRIES
  {
    Translate(ram, d, (ENTRIES + j) * PAGE_SIZE).Mapped?
  }

  /** The pages of the window that directory `d` maps. */
  ghost function WindowSlots(ram: Ram, d: nat): set<nat>
    requires d < |ram|
  {
    set j: nat | j < ENTRIES && SlotMapped(ram, d, j)
  }

  lemma SlotsBound(ram: Ram, d: nat)
    requires d < |ram|
    ensures |WindowSlots(ram, d)| <= ENTRIES
  {
    RangeCount(ENTRIES);
    PageRangeIs(0, ENTRIES);
    assert WindowSlots(ram, d) <= PageRange(0, ENTRIES);
    SubsetSize(WindowSlots(ram, d), PageRange(0, ENTRIES));
  }

  lemma {:induction false} RangeCount(n: nat)
    ensures |PageRange(0, n)| == n
  {
    if n > 0 {
      RangeCount(n - 1);
    }
  }

  lemma SubsetSize(a: set<nat>, b: set<nat>)
    requires a <= b
    ensures |a| <= |b|
  {
    assert b == a + (b - a);
  }

  lemma SlotsKept(ram: Ram, ram': Ram, kdir: nat, owner: Owners, d: nat)
    requires d < |ram| == |ram'| && SameTranslations(ram, ram', kdir, owner) && IsDir(owner, d)
    ensures WindowSlots(ram', d) == WindowSlots(ram, d)
  {
    hide Translate;
    forall j: nat | j < ENTRIES
      ensures SlotMapped(ram', d, j) <==> SlotMapped(ram, d, j)
    {
    }
  }

  /** `owner` is `start` plus frames taken on behalf of `d`. */
  ghost predicate OwnersExtend(start: Owners, owner: Owners, d: nat) {
    && (forall f :: f in start ==> f in owner && owner[f] == start[f] && DirOf(start, f) != d)
    && (forall f :: f in owner && f !in start ==> DirOf(owner, f) == d)
  }

  lemma LifeOver(start: Owners, owner: Owners, d: nat)
    requires OwnersExtend(start, owner, d)
    ensures owner - OwnedBy(owner, d) == start
  {
  }

  /** A served fault fills one slot that was empty and takes one frame on behalf of the process. */
  lemma SlotGained(free: set<nat>, owner: Owners, owner': Owners, ram: Ram, ram': Ram, kdir: nat, d: nat, addr: u32, f: nat, start: Owners)
    requires PageAdded(free, owner, owner', ram, ram', kdir, d, addr, f) && IsDir(owner, d) && USER_BASE <= addr < USER_TOP
    requires Translate(ram, d, addr) == Translation.Fault && free !! owner.Keys && OwnersExtend(start, owner, d)
    ensures d < |ram'| && |WindowSlots(ram', d)| == |WindowSlots(ram, d)| + 1
    ensures OwnersExtend(start, owner', d) && IsDir(owner', d)
  {
    hide Translate, WindowSlots;
    SlotFilled(ram, ram', d, addr, f);
    PageExtends(start, owner, d, addr / PAGE_SIZE % ENTRIES, f);
  }

  lemma PageExtends(start: Owners, owner: Owners, d: nat, j: nat, f: nat)
    requires OwnersExtend(start, owner, d) && f !in owner
    ensures OwnersExtend(start, owner[f := Page(d, j)], d)
  {
  }

  lemma SlotFilled(ram: Ram, ram': Ram, d: nat, addr: u32, f: nat)
    requires d < |ram| == |ram'| && USER_BASE <= addr < USER_TOP
    requires Translate(ram, d, addr) == Translation.Fault && Translate(ram', d, addr) == Mapped(f, true, true)
    requires forall va: u32 :: !SamePage(va, addr) ==> Translate(ram', d, va) == Translate(ram, d, va)
    ensures |WindowSlots(ram', d)| == |WindowSlots(ram, d)| + 1
  {
    hide Translate;
    var j := addr / PAGE_SIZE % ENTRIES;
    WindowIsOneDirectoryEntry(addr);
    PageInWindow(addr);
    TranslateByPage(ram, d, addr, (ENTRIES + j) * PAGE_SIZE);
    TranslateByPage(ram', d, addr, (ENTRIES + j) * PAGE_SIZE);
    forall k: nat | k < ENTRIES && k != j
      ensures SlotMapped(ram', d, k) <==> SlotMapped(ram, d, k)
    {
      assert !SamePage((ENTRIES + k) * PAGE_SIZE, addr);
    }
    assert WindowSlots(ram', d) == WindowSlots(ram, d) + {j};
  }

  /** Translation depends on the page of an address only. */
  lemma TranslateByPage(ram: Ram, d: nat, va: u32, vb: u32)
    requires d < |ram| && SamePage(va, vb)
    ensures Translate(ram, d, va) == Translate(ram, d, vb)
  {
    assert va / 0x40_0000 == va / PAGE_SIZE / ENTRIES && vb / 0x40_0000 == vb / PAGE_SIZE / ENTRIES;
  }

  /** A process just created maps nothing in its window and shares no frame with the others. */
  lemma NewProcess(free: set<nat>, kdir: nat, n: nat, boot: set<nat>, start: Owners, owner: Owners, ram: Ram, ram': Ram, d: nat)
    requires SpacesOk(ram, kdir, n, boot, start) && Created(free, start, owner, ram', d) && free !! start.Keys
    ensures d < |ram'| && WindowSlots(ram', d) == {} && OwnersExtend(start, owner, d) && IsDir(owner, d)
  {
    var t :| Fresh(free, start, owner, ram', d, t);
    EntryBits(t);
    forall j: nat | j < ENTRIES
      ensures !SlotMapped(ram', d, j)
    {
      assert (ENTRIES + j) * PAGE_SIZE / 0x40_0000 == USER_PDE;
    }
    forall f | f in start
      ensures DirOf(start, f) != d && owner[f] == start[f]
    {
      assert OwnerOk(ram, start, f);
    }
  }
}
