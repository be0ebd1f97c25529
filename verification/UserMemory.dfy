/** What programs find in memory: the words behind the ring-3 translations. */
module UserMemory {
  import opened Bytes
  import opened Frames
  import opened Options
  import opened Paging

  /** What a ring-3 load of the aligned word at `va` finds under directory `d`, if it does not fault. */
  function UserWord(ram: Ram, d: nat, va: u32): Option<u32>
    requires d < |ram|
  {
    var t := Translate(ram, d, va);
    if t.Mapped? && t.user && t.frame < |ram| then Some(ram[t.frame][va % PAGE_SIZE / 4]) else None
  }

  predicate SameWord(va: u32, vb: u32) {
    va / 4 == vb / 4
  }

  /** One word of process `d` has become `value`; every other word of every process is what it was. */
  ghost predicate WordStored(ram: Ram, ram': Ram, owner: Owners, d: nat, addr: u32, value: u32)
    requires |ram'| == |ram|
  {
    forall e: nat, va: u32 {:trigger UserWord(ram', e, va)} :: IsDir(owner, e) && e < |ram| ==>
      UserWord(ram', e, va) == if e == d && SameWord(va, addr) then Some(value) else UserWord(ram, e, va)
  }

  /** The page of `addr` in process `d` has become zeros; every other word of every process is what it was. */
  ghost predicate PageZeroed(ram: Ram, ram': Ram, owner: Owners, d: nat, addr: u32)
    requires |ram'| == |ram|
  {
    forall e: nat, va: u32 {:trigger UserWord(ram', e, va)} :: IsDir(owner, e) && e < |ram| ==>
      UserWord(ram', e, va) == if e == d && SamePage(va, addr) then Some(0) else UserWord(ram, e, va)
  }

  /** Every word of every process of `owner` is what it was. */
  ghost predicate WordsKept(ram: Ram, ram': Ram, owner: Owners)
    requires |ram'| == |ram|
  {
    forall e: nat, va: u32 {:trigger UserWord(ram', e, va)} :: IsDir(owner, e) && e < |ram| ==>
      UserWord(ram', e, va) == UserWord(ram, e, va)
  }

  lemma WordsKeptTrans(a: Ram, b: Ram, c: Ram, owner: Owners)
    requires |a| == |b| == |c| && WordsKept(a, b, owner) && WordsKept(b, c, owner)
    ensures WordsKept(a, c, owner)
  {
    hide UserWord;
    forall e: nat, va: u32 | IsDir(owner, e) && e < |a|
      ensures UserWord(c, e, va) == UserWord(a, e, va)
    {
      assert UserWord(b, e, va) == UserWord(a, e, va);
    }
  }

  lemma WordsKeptRefl(a: Ram, owner: Owners)
    ensures WordsKept(a, a, owner)
  {
  }

  lemma ZeroedIsThere(ram: Ram, ram': Ram, owner: Owners, d: nat, addr: u32)
    requires d < |ram| == |ram'| && IsDir(owner, d) && PageZeroed(ram, ram', owner, d, addr)
    ensures UserWord(ram', d, addr).Some?
  {
    hide UserWord;
  }

  /** Kept translations and kept pages are all a program can read. */
  lemma KeptPagesKeepWords(ram: Ram, ram': Ram, kdir: nat, n: nat, boot: set<nat>, owner: Owners)
    requires |ram'| == |ram| && (SpacesOk(ram, kdir, n, boot, owner) || SpacesOk(ram', kdir, n, boot, owner))
    requires SameTranslations(ram, ram', kdir, owner) && PagesKept(ram, ram', owner)
    ensures WordsKept(ram, ram', owner)
  {
    hide SpacesOk, Translate;
    forall e: nat, va: u32 | IsDir(owner, e) && e < |ram|
      ensures UserWord(ram', e, va) == UserWord(ram, e, va)
    {
      if Translate(ram, e, va).Mapped? && Translate(ram, e, va).user {
        UserTranslationsAreOwned(if SpacesOk(ram, kdir, n, boot, owner) then ram else ram', kdir, n, boot, owner, e, va);
      }
    }
  }

  /** A store of process `d`, and the page a fault gave it, leave the words of the others alone. */
  lemma OthersKeep(ram: Ram, ram': Ram, owner: Owners, start: Owners, d: nat, addr: u32, value: u32)
    requires |ram'| == |ram| && OwnersExtend(start, owner, d)
    requires WordStored(ram, ram', owner, d, addr, value) || PageZeroed(ram, ram', owner, d, addr)
    ensures WordsKept(ram, ram', start)
  {
    hide UserWord;
  }

  lemma WordInPage(va: u32, vb: u32)
    ensures SameWord(va, vb) <==> SamePage(va, vb) && va % PAGE_SIZE / 4 == vb % PAGE_SIZE / 4
  {
    assert va / 4 == va / PAGE_SIZE * ENTRIES + va % PAGE_SIZE / 4;
    assert vb / 4 == vb / PAGE_SIZE * ENTRIES + vb % PAGE_SIZE / 4;
  }

  /** Writing one word of the frame behind `addr` is seen at that word of that process and nowhere else. */
  lemma StoreIsSeen(ram: Ram, ram': Ram, kdir: nat, n: nat, boot: set<nat>, owner: Owners, d: nat, addr: u32, value: u32)
    requires SpacesOk(ram, kdir, n, boot, owner) && IsDir(owner, d) && d < |ram| == |ram'|
    requires var t := Translate(ram, d, addr);
             t.Mapped? && t.user && t.frame < |ram| && ram' == ram[t.frame := ram[t.frame][addr % PAGE_SIZE / 4 := value]]
    requires SameTranslations(ram, ram', kdir, owner)
    ensures WordStored(ram, ram', owner, d, addr, value)
  {
    hide SpacesOk, Translate, SameWord, SamePage;
    forall e: nat, va: u32 | IsDir(owner, e) && e < |ram|
      ensures UserWord(ram', e, va) == if e == d && SameWord(va, addr) then Some(value) else UserWord(ram, e, va)
    {
      WordInPage(va, addr);
      assert Translate(ram', e, va) == Translate(ram, e, va);
      if e == d && SamePage(va, addr) {
        TranslateByPage(ram, d, va, addr);
      } else if Translate(ram, e, va).Mapped? && Translate(ram, e, va).user
                && Translate(ram, e, va).frame == Translate(ram, d, addr).frame {
        UserFramesAreDisjoint(ram, kdir, n, boot, owner, d, addr, e, va);
        SamePageIs(va, addr);
      }
    }
  }

  lemma SamePageIs(va: u32, vb: u32)
    ensures SamePage(va, vb) <==> va / PAGE_SIZE == vb / PAGE_SIZE
  {
  }

  /** A served fault puts zeros behind one page of one process, and no program can tell anything else. */
  lemma FaultIsZeroFill(free: set<nat>, kdir: nat, n: nat, boot: set<nat>, owner: Owners, owner': Owners,
                        ram: Ram, ram': Ram, d: nat, addr: u32, f: nat)
    requires SpacesOk(ram, kdir, n, boot, owner) && IsDir(owner, d)
    requires PageAdded(free, owner, owner', ram, ram', kdir, d, addr, f)
    ensures PageZeroed(ram, ram', owner, d, addr)
  {
    hide SpacesOk, Translate;
    forall e: nat, va: u32 | IsDir(owner, e) && e < |ram|
      ensures UserWord(ram', e, va) == if e == d && SamePage(va, addr) then Some(0) else UserWord(ram, e, va)
    {
      if e == d && SamePage(va, addr) {
        TranslateByPage(ram', d, va, addr);
      } else if Translate(ram, e, va).Mapped? && Translate(ram, e, va).user {
        UserTranslationsAreOwned(ram, kdir, n, boot, owner, e, va);
      }
    }
  }

  /** A process that has no page at an address of the window has no translation there. */
  lemma NoWordIsFault(ram: Ram, kdir: nat, n: nat, boot: set<nat>, owner: Owners, d: nat, addr: u32)
    requires SpacesOk(ram, kdir, n, boot, owner) && IsDir(owner, d) && d < |ram|
    ensures USER_BASE <= addr < USER_TOP ==> (UserWord(ram, d, addr) == None <==> Translate(ram, d, addr) == Translation.Fault)
    ensures !(USER_BASE <= addr < USER_TOP) ==> UserWord(ram, d, addr) == None
  {
    hide SpacesOk, Translate;
    var t := Translate(ram, d, addr);
    if USER_BASE <= addr < USER_TOP {
      WindowTranslation(ram, kdir, n, boot, owner, d, addr);
    }
    if t.Mapped? && t.user {
      UserTranslationsAreOwned(ram, kdir, n, boot, owner, d, addr);
      OwnedInPool(ram, kdir, n, boot, owner, t.frame);
    }
  }

  lemma NothingRead(ram: Ram, kdir: nat, n: nat, boot: set<nat>, owner: Owners, d: nat)
    requires SpacesOk(ram, kdir, n, boot, owner) && IsDir(owner, d) && d < |ram| && WindowSlots(ram, d) == {}
    ensures ReadsAs(ram, d, [])
  {
    hide SpacesOk, UserWord, WindowSlots;
    forall va: u32
      ensures UserWord(ram, d, va) == None
    {
      NewProcessReadsNothing(ram, kdir, n, boot, owner, d, va);
    }
  }

  /** A new process finds nothing in memory. */
  lemma NewProcessReadsNothing(ram: Ram, kdir: nat, n: nat, boot: set<nat>, owner: Owners, d: nat, va: u32)
    requires SpacesOk(ram, kdir, n, boot, owner) && IsDir(owner, d) && d < |ram| && WindowSlots(ram, d) == {}
    ensures UserWord(ram, d, va) == None
  {
    hide SpacesOk, Translate, WindowSlots;
    if UserWord(ram, d, va).Some? {
      UserTranslationsAreOwned(ram, kdir, n, boot, owner, d, va);
      WordIsInSlot(ram, d, va);
    }
  }

  lemma WordIsInSlot(ram: Ram, d: nat, va: u32)
    requires d < |ram| && USER_BASE <= va < USER_TOP && Translate(ram, d, va).Mapped?
    ensures va / PAGE_SIZE % ENTRIES in WindowSlots(ram, d)
  {
    hide Translate;
    var j := va / PAGE_SIZE % ENTRIES;
    WindowIsOneDirectoryEntry(va);
    PageInWindow(va);
    TranslateByPage(ram, d, va, (ENTRIES + j) * PAGE_SIZE);
    assert SlotMapped(ram, d, j);
  }

  // ---------------------------------------------------------------- a program's stores as a plain memory

  datatype Store = Store(addr: u32, value: u32)

  /** The word at `va` after the stores, in a memory that starts out as zeros. */
  function WordAfter(stores: seq<Store>, va: u32): u32 {
    if stores == [] then 0
    else
      var last := stores[|stores| - 1];
      if SameWord(last.addr, va) then last.value else WordAfter(stores[..|stores| - 1], va)
  }

  /** A word nobody stored to is zero. */
  lemma {:induction false} UntouchedIsZero(stores: seq<Store>, va: u32)
    requires forall k :: 0 <= k < |stores| ==> !SameWord(stores[k].addr, va)
    ensures WordAfter(stores, va) == 0
  {
    if stores != [] {
      UntouchedIsZero(stores[..|stores| - 1], va);
    }
  }

  /** The process reads back its stores, and zero elsewhere, on every page it has; it has the pages of its stores. */
  ghost predicate ReadsAs(ram: Ram, d: nat, stores: seq<Store>)
    requires d < |ram|
  {
    && (forall va: u32 {:trigger UserWord(ram, d, va)} :: UserWord(ram, d, va).Some? ==>
          UserWord(ram, d, va) == Some(WordAfter(stores, va)))
    && (forall k :: 0 <= k < |stores| ==> UserWord(ram, d, stores[k].addr).Some?)
  }

  lemma WordByPage(ram: Ram, d: nat, va: u32, vb: u32)
    requires d < |ram| && SamePage(va, vb)
    ensures UserWord(ram, d, va).Some? <==> UserWord(ram, d, vb).Some?
  {
    hide Translate;
    TranslateByPage(ram, d, va, vb);
  }

  /** Demand paging is invisible: filling in a page keeps what the program reads. */
  lemma FaultKeepsReads(ram: Ram, ram': Ram, owner: Owners, d: nat, addr: u32, stores: seq<Store>)
    requires d < |ram| == |ram'| && IsDir(owner, d) && ReadsAs(ram, d, stores)
    requires PageZeroed(ram, ram', owner, d, addr) && UserWord(ram, d, addr) == None
    ensures ReadsAs(ram', d, stores)
  {
    hide UserWord, SamePage, SameWord;
    forall va: u32 | SamePage(va, addr)
      ensures WordAfter(stores, va) == 0
    {
      forall k | 0 <= k < |stores|
        ensures !SameWord(stores[k].addr, va)
      {
        if SameWord(stores[k].addr, va) {
          WordInPage(stores[k].addr, va);
          SamePageIs(stores[k].addr, va);
          SamePageIs(va, addr);
          SamePageIs(stores[k].addr, addr);
          WordByPage(ram, d, stores[k].addr, addr);
        }
      }
      UntouchedIsZero(stores, va);
    }
  }

  lemma StoreIsRead(ram: Ram, ram': Ram, owner: Owners, d: nat, s: Store, stores: seq<Store>)
    requires d < |ram| == |ram'| && IsDir(owner, d) && ReadsAs(ram, d, stores) && UserWord(ram, d, s.addr).Some?
    requires WordStored(ram, ram', owner, d, s.addr, s.value)
    ensures ReadsAs(ram', d, stores + [s])
  {
    hide UserWord;
    assert (stores + [s])[..|stores|] == stores;
  }
}
