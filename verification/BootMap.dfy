/** The identity map that paging_init builds, as values. */
module BootMap {
  import opened Bytes
  import opened Frames
  import opened Paging

  /** Entry `i` of the kernel directory while the map is being built. */
  predicate TableOk(ram: Ram, kdir: nat, free: set<nat>, i: nat)
    requires kdir < |ram| && i < ENTRIES
  {
    var w := ram[kdir][i];
    if !Present(w) then w == 0
    else
      && i != USER_PDE && FrameNo(w) < |ram| && FrameNo(w) < FRAME_LIMIT && FrameNo(w) != kdir && FrameNo(w) !in free
      && w == KernelEntry(FrameNo(w))
      && forall j :: 0 <= j < ENTRIES ==> ram[FrameNo(w)][j] == 0 || ram[FrameNo(w)][j] == KernelEntry(i * ENTRIES + j)
  }

  predicate TablesApart(a: u32, b: u32) {
    Present(a) && Present(b) ==> FrameNo(a) != FrameNo(b)
  }

  /** The kernel directory holds supervisor tables of its own, with identity entries and nothing in the window. */
  ghost predicate BootOk(ram: Ram, kdir: nat, free: set<nat>) {
    && kdir < |ram| && kdir !in free
    && (forall i :: 0 <= i < ENTRIES ==> TableOk(ram, kdir, free, i))
    && (forall i, j {:trigger TablesApart(ram[kdir][i], ram[kdir][j])} :: 0 <= i < ENTRIES && 0 <= j < ENTRIES && i != j ==>
          TablesApart(ram[kdir][i], ram[kdir][j]))
  }

  /** Nothing that was mapped got lost. */
  ghost predicate MapsMore(ram: Ram, ram': Ram, kdir: nat)
    requires kdir < |ram| && kdir < |ram'|
  {
    forall q: nat {:trigger KernelMaps(ram', kdir, q)} :: q < FRAME_LIMIT && KernelMaps(ram, kdir, q) ==> KernelMaps(ram', kdir, q)
  }

  lemma MapsMoreTrans(a: Ram, b: Ram, c: Ram, kdir: nat)
    requires kdir < |a| && kdir < |b| && kdir < |c| && MapsMore(a, b, kdir) && MapsMore(b, c, kdir)
    ensures MapsMore(a, c, kdir)
  {
    hide KernelMaps;
    forall q: nat | q < FRAME_LIMIT && KernelMaps(a, kdir, q)
      ensures KernelMaps(c, kdir, q)
    {
      assert KernelMaps(b, kdir, q);
    }
  }

  /** A new, empty table for directory entry `i`. */
  lemma AddTable(ram: Ram, kdir: nat, free: set<nat>, i: nat, f: nat)
    requires BootOk(ram, kdir, free) && i < ENTRIES && i != USER_PDE && !Present(ram[kdir][i])
    requires f in free && f < |ram| && f < FRAME_LIMIT
    ensures var ram' := ram[f := Zeros()][kdir := ram[kdir][i := KernelEntry(f)]];
            BootOk(ram', kdir, free - {f}) && MapsMore(ram, ram', kdir) && Present(ram'[kdir][i]) && FrameNo(ram'[kdir][i]) == f
  {
    var ram' := ram[f := Zeros()][kdir := ram[kdir][i := KernelEntry(f)]];
    EntryBits(f);
    forall k | 0 <= k < ENTRIES
      ensures TableOk(ram', kdir, free - {f}, k)
    {
      assert TableOk(ram, kdir, free, k);
    }
    forall k, l | 0 <= k < ENTRIES && 0 <= l < ENTRIES && k != l
      ensures TablesApart(ram'[kdir][k], ram'[kdir][l])
    {
      assert TablesApart(ram[kdir][k], ram[kdir][l]);
      assert TableOk(ram, kdir, free, k) && TableOk(ram, kdir, free, l);
    }
    forall q: nat | q < FRAME_LIMIT && KernelMaps(ram, kdir, q)
      ensures KernelMaps(ram', kdir, q)
    {
      assert TableOk(ram, kdir, free, q / ENTRIES);
    }
  }

  /** The identity entry of page `p` in its table. */
  lemma SetEntry(ram: Ram, kdir: nat, free: set<nat>, p: nat)
    requires BootOk(ram, kdir, free) && p < FRAME_LIMIT && Present(ram[kdir][p / ENTRIES])
    ensures FrameNo(ram[kdir][p / ENTRIES]) < |ram|
    ensures var t := FrameNo(ram[kdir][p / ENTRIES]);
            var ram' := ram[t := ram[t][p % ENTRIES := KernelEntry(p)]];
            BootOk(ram', kdir, free) && MapsMore(ram, ram', kdir) && KernelMaps(ram', kdir, p)
  {
    var i := p / ENTRIES;
    assert TableOk(ram, kdir, free, i);
    var t := FrameNo(ram[kdir][i]);
    var ram' := ram[t := ram[t][p % ENTRIES := KernelEntry(p)]];
    assert p == i * ENTRIES + p % ENTRIES;
    forall k | 0 <= k < ENTRIES
      ensures TableOk(ram', kdir, free, k)
    {
      assert TableOk(ram, kdir, free, k);
      assert k != i ==> TablesApart(ram[kdir][i], ram[kdir][k]);
    }
    assert ram'[kdir] == ram[kdir];
    forall q: nat | q < FRAME_LIMIT && KernelMaps(ram, kdir, q)
      ensures KernelMaps(ram', kdir, q)
    {
      assert q / ENTRIES != i ==> TablesApart(ram[kdir][i], ram[kdir][q / ENTRIES]);
    }
  }

  /** A zeroed directory maps nothing. */
  lemma EmptyDirectory(ram: Ram, kdir: nat, free: set<nat>)
    requires kdir < |ram| && kdir !in free && ram[kdir] == Zeros()
    ensures BootOk(ram, kdir, free)
  {
  }

  /** The finished map supports process address spaces: with every free frame mapped, boot is over. */
  lemma BootDone(ram: Ram, kdir: nat, n: nat, free: set<nat>)
    requires BootOk(ram, kdir, free) && 0 !in free && n <= |ram| && n < FRAME_LIMIT
    requires forall f :: f in free ==> f < n && KernelMaps(ram, kdir, f)
    ensures var boot := PageRange(0, |ram|) - free;
            SpacesOk(ram, kdir, n, boot, map[]) && Pool(n, boot) == free
  {
    var boot := PageRange(0, |ram|) - free;
    PageRangeIs(0, |ram|);
    forall i | 0 <= i < ENTRIES && Present(ram[kdir][i])
      ensures !UserBit(ram[kdir][i]) && Writable(ram[kdir][i]) && FrameNo(ram[kdir][i]) in boot && FrameNo(ram[kdir][i]) < |ram|
    {
      assert TableOk(ram, kdir, free, i);
      EntryBits(FrameNo(ram[kdir][i]));
    }
    assert TableOk(ram, kdir, free, USER_PDE);
    assert Pool(n, boot) == free;
  }

  // ---------------------------------------------------------------- which pages an E820 entry gets mapped

  function Max(a: nat, b: nat): nat {
    if a > b then a else b
  }

  /** map_usable passes over entries that wrap or end below 1 MB. */
  predicate Skipped(e: E820Entry) {
    !Considered(e) || e.baseLo + e.lenLo >= TWO32 || e.baseLo + e.lenLo <= LOW_END
  }

  /** The end of the range map_usable maps: the length is added, in 32 bits, to the base after that was raised to 1 MB. */
  function MappedEnd(e: E820Entry): u32 {
    (Max(e.baseLo, LOW_END) + e.lenLo) % TWO32
  }

  /** The page counter of map_range after `n` rounds, in 32 bits. */
  function PageCounter(from: u32, n: nat): u32 {
    (from / PAGE_SIZE * PAGE_SIZE + n * PAGE_SIZE) % TWO32
  }

  const LAST_PAGE := 0xFFFF_F000

  /** The page loop reaches its limit exactly when the limit is not inside the last page: from there the counter goes back to zero. */
  lemma PageLoopEndsIff(from: u32, limit: u32)
    ensures (exists n: nat :: PageCounter(from, n) >= limit) <==> limit <= LAST_PAGE
  {
    if limit <= LAST_PAGE {
      assert PageCounter(from, (LAST_PAGE - from / PAGE_SIZE * PAGE_SIZE) / PAGE_SIZE) == LAST_PAGE;
    } else {
      forall n: nat ensures PageCounter(from, n) < limit {
        WholePages(from / PAGE_SIZE + n);
      }
    }
  }

  lemma WholePages(n: nat)
    ensures n * PAGE_SIZE % TWO32 <= LAST_PAGE
  {
    assert n * PAGE_SIZE == (n / 0x10_0000 * 0x10_0000 + n % 0x10_0000) * PAGE_SIZE;
    assert n * PAGE_SIZE == n / 0x10_0000 * TWO32 + n % 0x10_0000 * PAGE_SIZE;
  }

  /** No range reaches into the last page. */
  predicate LoopsEnd(map': seq<E820Entry>) {
    forall i :: 0 <= i < |map'| && !Skipped(map'[i]) ==> MappedEnd(map'[i]) <= LAST_PAGE
  }

  /** Usable memory up to the last byte below 4 GB: the page loop for it passes its limit over. */
  lemma MemoryToTheEndLoops()
    ensures var e := E820Entry(0xFFF0_0000, 0, 0xF_FFFF, 0, E820_USABLE);
            !Skipped(e) && !LoopsEnd([e]) && forall n: nat :: PageCounter(e.baseLo, n) < MappedEnd(e)
  {
    var e := E820Entry(0xFFF0_0000, 0, 0xF_FFFF, 0, E820_USABLE);
    assert !Skipped([e][0]);
    PageLoopEndsIff(e.baseLo, MappedEnd(e));
  }

  /** Every frame the entry can free gets mapped for it: neither sum wraps, or only its last page and memory below 1 MB are in it. */
  predicate FullyMapped(e: E820Entry) {
    || (e.baseLo + e.lenLo < TWO32 && (e.baseLo >= LOW_END || LOW_END + e.lenLo < TWO32))
    || (e.baseLo > 0xFFFF_E000 && e.baseLo + e.lenLo <= TWO32 + LOW_END)
  }

  predicate AllFullyMapped(map': seq<E820Entry>) {
    forall i :: 0 <= i < |map'| && Considered(map'[i]) ==> FullyMapped(map'[i])
  }

  predicate InWindow(p: nat) {
    USER_BASE <= p * PAGE_SIZE < USER_TOP
  }

  /** Page `p` lies in the range mapped for entry `e`, window excluded; a range that ends at or below its start is empty. */
  predicate InMapped(e: E820Entry, p: nat) {
    && !Skipped(e) && Max(e.baseLo, LOW_END) < MappedEnd(e)
    && Max(e.baseLo, LOW_END) / PAGE_SIZE <= p && p * PAGE_SIZE < MappedEnd(e) && !InWindow(p)
  }

  /** Raising the base without shortening the length maps past the end of such an entry, and only of such an entry, unless the
      new sum wraps. */
  lemma OvershootsIff(e: E820Entry)
    requires !Skipped(e)
    ensures MappedEnd(e) > e.baseLo + e.lenLo <==> e.baseLo < LOW_END && LOW_END + e.lenLo < TWO32
    ensures MappedEnd(e) < e.baseLo + e.lenLo <==> e.baseLo < LOW_END && LOW_END + e.lenLo >= TWO32
  {
  }

  /** The largest top is 0xFFFFFFFF, so the frame holding it is never counted. */
  const TOP_FRAME := 0xFFFFF

  lemma FullyMappedHas(e: E820Entry, f: nat)
    requires f < TOP_FRAME && FullyMapped(e) && Covers(e, f * PAGE_SIZE)
    requires f * PAGE_SIZE >= LOW_END && !InWindow(f)
    ensures InMapped(e, f)
  {
  }

  /** The first page memory_init frees of an entry that is not mapped in full. */
  function Stray(e: E820Entry): nat {
    var p := (e.baseLo + PAGE_SIZE - 1) / PAGE_SIZE;
    if e.baseLo > 0xFFFF_E000 || p < LOW_END / PAGE_SIZE then LOW_END / PAGE_SIZE
    else if InWindow(p) then USER_TOP / PAGE_SIZE
    else p
  }

  lemma StrayIsFreed(e: E820Entry)
    requires Considered(e) && !FullyMapped(e)
    ensures Stray(e) < TOP_FRAME && UsableFrame([e], Stray(e)) && forall p :: !InMapped(e, p)
  {
    var addr := Stray(e) * PAGE_SIZE;
    if e.baseLo > 0xFFFF_E000 {
      assert ToInt32(addr - e.baseLo) == addr - e.baseLo + TWO32;
    } else {
      assert 0 <= addr - e.baseLo <= USER_TOP && ToInt32(addr - e.baseLo) == addr - e.baseLo;
    }
    assert Covers([e][0], addr);
  }

  /** An entry's frames are all mapped for it exactly when neither its end nor the end counted from 1 MB wraps, give or take its
      last page and low memory. */
  lemma FreedIsMappedIff(e: E820Entry)
    requires Considered(e)
    ensures (forall f: nat :: f < TOP_FRAME && UsableFrame([e], f) ==> InMapped(e, f)) <==> FullyMapped(e)
  {
    if FullyMapped(e) {
      forall f: nat | f < TOP_FRAME && UsableFrame([e], f) ensures InMapped(e, f) {
        FullyMappedHas(e, f);
      }
    } else {
      StrayIsFreed(e);
    }
  }

  /** Usable memory up to 4 GB: the sum is zero in 32 bits, so its frames are free and not mapped, although every loop ends. */
  lemma MemoryUpTo4GbIsNotMapped()
    ensures var e := E820Entry(0xC000_0000, 0, 0x4000_0000, 0, E820_USABLE);
            LoopsEnd([e]) && 0xC_0000 in BootFree([e], TOP_FRAME) && !InMapped(e, 0xC_0000) && SaturatedEnd(e) / PAGE_SIZE == TOP_FRAME
  {
    var e := E820Entry(0xC000_0000, 0, 0x4000_0000, 0, E820_USABLE);
    assert Covers([e][0], 0xC_0000 * PAGE_SIZE);
  }

  /** Usable memory from zero on, short of 4 GB by 1 MB: its own end does not wrap, but counted from 1 MB it is zero again, so
      nothing is mapped, although every loop ends. */
  lemma MemoryFromZeroIsNotMapped()
    ensures var e := E820Entry(0, 0, 0xFFF0_0000, 0, E820_USABLE);
            && e.baseLo + e.lenLo < TWO32 && LoopsEnd([e]) && MappedEnd(e) == 0
            && 0x100 in BootFree([e], SaturatedEnd(e) / PAGE_SIZE) && forall p :: !InMapped(e, p)
  {
    var e := E820Entry(0, 0, 0xFFF0_0000, 0, E820_USABLE);
    assert Covers([e][0], 0x100 * PAGE_SIZE);
  }

  /** When every entry is mapped in full, every frame memory_init frees is in some mapped range. */
  lemma UsableIsMapped(map': seq<E820Entry>, f: nat)
    requires AllFullyMapped(map') && UsableFrame(map', f) && f < TOP_FRAME
    ensures exists i :: 0 <= i < |map'| && InMapped(map'[i], f)
  {
    var i :| 0 <= i < |map'| && Covers(map'[i], f * PAGE_SIZE);
    FullyMappedHas(map'[i], f);
  }

  /** Clearing U/S, which on a supervisor entry changes nothing. */
  function ClearUser(w: u32): u32 {
    if UserBit(w) then w - 4 else w
  }

  lemma ClearUserSame(ram: Ram, kdir: nat, free: set<nat>, i: nat)
    requires BootOk(ram, kdir, free) && i < ENTRIES
    ensures ClearUser(ram[kdir][i]) == ram[kdir][i]
  {
    assert TableOk(ram, kdir, free, i);
    if Present(ram[kdir][i]) {
      EntryBits(FrameNo(ram[kdir][i]));
    }
  }

  lemma MapsMoreRefl(a: Ram, kdir: nat)
    requires kdir < |a|
    ensures MapsMore(a, a, kdir)
  {
  }

  /** Every page from the one holding `from` up to `limit` is identity-mapped. */
  ghost predicate MapsPages(ram: Ram, kdir: nat, from: u32, limit: u32)
    requires kdir < |ram|
  {
    forall p: nat :: from / PAGE_SIZE <= p && p * PAGE_SIZE < limit ==> p < FRAME_LIMIT && KernelMaps(ram, kdir, p)
  }

  lemma WindowPages(v: int)
    requires 0 <= v < TWO32 && v % PAGE_SIZE == 0
    ensures InWindow(v / PAGE_SIZE) <==> v / 0x40_0000 == USER_PDE
  {
  }

  lemma PagesUpTo(v: int)
    requires 0 <= v && v % PAGE_SIZE == 0
    ensures forall p: nat :: p * PAGE_SIZE < v + PAGE_SIZE ==> p * PAGE_SIZE < v || p == v / PAGE_SIZE
  {
  }

  /** The ranges of the first `n` entries are mapped. */
  ghost predicate AllMapped(ram: Ram, kdir: nat, map': seq<E820Entry>, n: nat)
    requires kdir < |ram| && n <= |map'|
  {
    forall i, p: nat {:trigger InMapped(map'[i], p)} :: 0 <= i < n && InMapped(map'[i], p) ==> p < FRAME_LIMIT && KernelMaps(ram, kdir, p)
  }

  lemma AllMappedHas(ram: Ram, kdir: nat, map': seq<E820Entry>, f: nat)
    requires kdir < |ram| && AllMapped(ram, kdir, map', |map'|) && exists i :: 0 <= i < |map'| && InMapped(map'[i], f)
    ensures f < FRAME_LIMIT && KernelMaps(ram, kdir, f)
  {
  }

  /** An identity entry is a writable supervisor translation. */
  lemma MappedTranslates(ram: Ram, kdir: nat, free: set<nat>, p: nat)
    requires BootOk(ram, kdir, free) && p < FRAME_LIMIT && KernelMaps(ram, kdir, p)
    ensures Translate(ram, kdir, p * PAGE_SIZE) == Mapped(p, false, true)
  {
    var va: u32 := p * PAGE_SIZE;
    assert va / 0x40_0000 == p / ENTRIES && va / PAGE_SIZE == p;
    assert TableOk(ram, kdir, free, p / ENTRIES);
    EntryBits(p);
    EntryBits(FrameNo(ram[kdir][p / ENTRIES]));
  }

  /** The kernel's own megabyte is mapped at its address, writable, for the supervisor alone. */
  ghost predicate LowMegabyteMapped(ram: Ram, kdir: nat) {
    kdir < |ram| && forall p: nat :: p < 256 ==> Translate(ram, kdir, p * PAGE_SIZE) == Mapped(p, false, true)
  }

  lemma LowMapped(start: Ram, ram: Ram, kdir: nat, free: set<nat>)
    requires kdir < |start| && MapsPages(start, kdir, 0, LOW_END) && BootOk(ram, kdir, free) && MapsMore(start, ram, kdir)
    ensures LowMegabyteMapped(ram, kdir)
  {
    hide BootOk, KernelMaps, Translate;
    KdirFits(ram, kdir, free);
    forall p: nat | p < 256
      ensures Translate(ram, kdir, p * PAGE_SIZE) == Mapped(p, false, true)
    {
      assert KernelMaps(start, kdir, p);
      MappedTranslates(ram, kdir, free, p);
    }
  }

  lemma KdirFits(ram: Ram, kdir: nat, free: set<nat>)
    requires BootOk(ram, kdir, free)
    ensures kdir < |ram|
  {
  }

  /** No frame below 1 MB is free after memory_init. */
  lemma LowFramesReserved(map': seq<E820Entry>, n: nat)
    ensures forall f :: f in BootFree(map', n) ==> f * PAGE_SIZE >= LOW_END
  {
  }

  /** paging_init's result: when every entry is mapped in full, boot is over and processes can be created. */
  lemma BootOver(ram: Ram, kdir: nat, n: nat, map': seq<E820Entry>, free: set<nat>)
    requires BootOk(ram, kdir, free) && 0 !in free && n <= |ram| && n < FRAME_LIMIT && AllFullyMapped(map')
    requires free <= BootFree(map', n) && (free != {} ==> AllMapped(ram, kdir, map', |map'|))
    ensures var boot := PageRange(0, |ram|) - free;
            SpacesOk(ram, kdir, n, boot, map[]) && Pool(n, boot) == free
  {
    hide KernelMaps, InMapped, AllMapped, TableOk, UsableFrame, SpacesOk, Pool;
    forall f | f in free
      ensures f < n && KernelMaps(ram, kdir, f)
    {
      UsableIsMapped(map', f);
      AllMappedHas(ram, kdir, map', f);
    }
    BootDone(ram, kdir, n, free);
  }

  lemma AllMappedStep(ram: Ram, ram': Ram, kdir: nat, map': seq<E820Entry>, n: nat)
    requires kdir < |ram| && kdir < |ram'| && n < |map'| && AllMapped(ram, kdir, map', n) && MapsMore(ram, ram', kdir)
    requires forall p: nat :: InMapped(map'[n], p) ==> p < FRAME_LIMIT && KernelMaps(ram', kdir, p)
    ensures AllMapped(ram', kdir, map', n + 1)
  {
    hide KernelMaps, InMapped;
    forall i, p: nat | 0 <= i < n + 1 && InMapped(map'[i], p)
      ensures p < FRAME_LIMIT && KernelMaps(ram', kdir, p)
    {
      if i < n {
        assert KernelMaps(ram, kdir, p);
      }
    }
  }
}
