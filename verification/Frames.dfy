/** The physical frame bitmap of memory.c and the E820 map it is filled from. */
module Frames {
  import opened Bytes

  const PAGE_SIZE := 4096
  const LOW_END := 0x10_0000
  const USER_BASE := 0x40_0000
  const USER_TOP := 0x80_0000
  const E820_USABLE := 1
  /** Frame numbers of a 32-bit physical address space. */
  const FRAME_LIMIT := 0x10_0000

  datatype E820Entry = E820Entry(baseLo: u32, baseHi: u32, lenLo: u32, lenHi: u32, kind: u32)

  predicate Considered(e: E820Entry) {
    e.kind == E820_USABLE && e.baseHi == 0
  }

  /** base + len, saturated where the 32-bit sum wraps. */
  function SaturatedEnd(e: E820Entry): u32 {
    if e.baseLo + e.lenLo < TWO32 then e.baseLo + e.lenLo else 0xFFFF_FFFF
  }

  /** The test of in_usable: a signed 32-bit difference, then an unsigned comparison. */
  predicate Covers(e: E820Entry, addr: u32) {
    Considered(e) && ToInt32(addr - e.baseLo) >= 0 && ToInt32(addr - e.baseLo) < e.lenLo
  }

  /** The region the entry describes. */
  predicate Describes(e: E820Entry, addr: u32) {
    Considered(e) && e.baseLo <= addr < e.baseLo + e.lenLo
  }

  /** in_usable decides membership correctly for all addresses exactly when the entry neither wraps
      nor is longer than 2 GB (or is the whole upper half of the address space). */
  lemma CoversExactIff(e: E820Entry)
    requires Considered(e)
    ensures (forall addr: u32 :: Covers(e, addr) <==> Describes(e, addr))
            <==> (e.lenLo <= 0x8000_0000 && e.baseLo + e.lenLo <= TWO32) || (e.baseLo == 0x8000_0000 && e.lenLo >= 0x8000_0000)
  {
    if e.baseLo + e.lenLo > TWO32 && e.baseLo != 0x8000_0000 {
      if e.baseLo > 0x8000_0000 || e.lenLo <= 0x8000_0000 {
        assert Covers(e, 0) && !Describes(e, 0);
      } else {
        assert Describes(e, e.baseLo + 0x8000_0000) && !Covers(e, e.baseLo + 0x8000_0000);
      }
    } else if e.lenLo > 0x8000_0000 && e.baseLo != 0x8000_0000 {
      assert Describes(e, e.baseLo + 0x8000_0000) && !Covers(e, e.baseLo + 0x8000_0000);
    }
  }

  predicate InUsable(map': seq<E820Entry>, addr: u32) {
    exists i :: 0 <= i < |map'| && Covers(map'[i], addr)
  }

  /** top_usable. */
  method TopUsable(map': seq<E820Entry>) returns (top: u32)
    ensures IsTop(map', top)
    ensures forall i, addr: u32 {:trigger Describes(map'[i], addr)} :: 0 <= i < |map'| && Describes(map'[i], addr) ==>
              addr < top || addr == top == 0xFFFF_FFFF
    ensures top > 0 ==> exists i :: 0 <= i < |map'| && EndsAt(map'[i], top)
  {
    top := 0;
    var i := 0;
    while i < |map'|
      invariant 0 <= i <= |map'|
      invariant forall j :: 0 <= j < i && Considered(map'[j]) ==> SaturatedEnd(map'[j]) <= top
      invariant top == 0 || exists j :: 0 <= j < i && Considered(map'[j]) && SaturatedEnd(map'[j]) == top
    {
      if Considered(map'[i]) {
        var end := (map'[i].baseLo + map'[i].lenLo) % TWO32;
        if end < map'[i].baseLo {
          end := 0xFFFF_FFFF;
        }
        assert end == SaturatedEnd(map'[i]);
        if end > top {
          top := end;
        }
      }
      i := i + 1;
    }
    TopIsEnd(map', top);
  }

  /** The entry's region ends at `top`, or runs past the last address and `top` is that. */
  predicate EndsAt(e: E820Entry, top: u32) {
    Considered(e) && (e.baseLo + e.lenLo == top || (e.baseLo + e.lenLo > 0xFFFF_FFFF && top == 0xFFFF_FFFF))
  }

  /** Every address that a usable entry describes lies below the top, the last address apart, and the top is the end of one. */
  lemma TopIsEnd(map': seq<E820Entry>, top: u32)
    requires IsTop(map', top)
    ensures forall i, addr: u32 {:trigger Describes(map'[i], addr)} :: 0 <= i < |map'| && Describes(map'[i], addr) ==>
              addr < top || addr == top == 0xFFFF_FFFF
    ensures top > 0 ==> exists i :: 0 <= i < |map'| && EndsAt(map'[i], top)
  {
    if top > 0 {
      var i :| 0 <= i < |map'| && Considered(map'[i]) && SaturatedEnd(map'[i]) == top;
      assert EndsAt(map'[i], top);
    }
  }

  /** No frame of usable memory is lost: one that an entry describes whole, at or above 1 MB, outside the ring-3 window and not the
      last of all, is free after the first loop of memory_init, if the entry is short enough for the test of in_usable. */
  lemma DescribedIsFree(map': seq<E820Entry>, top: u32, i: nat, f: nat)
    requires IsTop(map', top) && i < |map'| && map'[i].lenLo <= 0x8000_0000 && f < 0xF_FFFF
    requires Describes(map'[i], f * PAGE_SIZE) && Describes(map'[i], f * PAGE_SIZE + PAGE_SIZE - 1)
    requires f * PAGE_SIZE >= 0x10_0000 && !(0x40_0000 <= f * PAGE_SIZE < 0x80_0000)
    ensures f in BootFree(map', top / PAGE_SIZE)
  {
    hide IsTop;
    TopIsEnd(map', top);
    var addr: u32 := f * PAGE_SIZE + PAGE_SIZE - 1;
    assert Describes(map'[i], addr);
    assert Covers(map'[i], f * PAGE_SIZE);
  }

  /** in_usable. */
  method IsUsable(map': seq<E820Entry>, addr: u32) returns (yes: bool)
    ensures yes <==> InUsable(map', addr)
  {
    var i := 0;
    while i < |map'|
      invariant 0 <= i <= |map'| && forall j :: 0 <= j < i ==> !Covers(map'[j], addr)
    {
      if Covers(map'[i], addr) {
        return true;
      }
      i := i + 1;
    }
    yes := false;
  }

  ghost predicate IsTop(map': seq<E820Entry>, top: u32) {
    && (forall i :: 0 <= i < |map'| && Considered(map'[i]) ==> SaturatedEnd(map'[i]) <= top)
    && (top == 0 || exists i :: 0 <= i < |map'| && Considered(map'[i]) && SaturatedEnd(map'[i]) == top)
  }

  function PageUp(addr: u32): u32
    requires addr < 0x8000_0000
  {
    (addr + PAGE_SIZE - 1) / PAGE_SIZE * PAGE_SIZE
  }

  /** At or above 1 MB, outside the ring-3 window, usable per E820. */
  predicate UsableFrame(map': seq<E820Entry>, f: nat) {
    f < FRAME_LIMIT && f * PAGE_SIZE >= LOW_END && !(USER_BASE <= f * PAGE_SIZE < USER_TOP) && InUsable(map', f * PAGE_SIZE)
  }

  ghost function BootFree(map': seq<E820Entry>, n: nat): set<nat> {
    set f: nat | f < n && UsableFrame(map', f)
  }

  lemma BootFreeStep(map': seq<E820Entry>, n: nat)
    ensures BootFree(map', 0) == {} && n !in BootFree(map', n)
    ensures BootFree(map', n + 1) == if UsableFrame(map', n) then BootFree(map', n) + {n} else BootFree(map', n)
  {
    hide UsableFrame;
  }

  /** The three tests of memory_init's first loop. */
  lemma UsableFrameTests(map': seq<E820Entry>, f: nat)
    requires f < FRAME_LIMIT
    ensures UsableFrame(map', f) <==>
            !(f * PAGE_SIZE < LOW_END) && !(f * PAGE_SIZE >= USER_BASE && f * PAGE_SIZE < USER_TOP) && InUsable(map', f * PAGE_SIZE)
  {
    hide InUsable;
  }

  /** The frames from `first` up to but not including `limit`. */
  function PageRange(first: nat, limit: nat): (r: set<nat>)
    ensures forall f: nat :: f in r <==> first <= f < limit
    decreases limit
  {
    if first >= limit then {} else PageRange(first, limit - 1) + {limit - 1}
  }

  lemma PageRangeIs(first: nat, limit: nat)
    ensures forall f: nat :: f in PageRange(first, limit) <==> first <= f < limit
  {
  }

  lemma PagesCover(from: u32, bytes: nat, p: nat)
    requires from % PAGE_SIZE == 0 && from / PAGE_SIZE <= p && p * PAGE_SIZE >= from + bytes
    requires p > from / PAGE_SIZE ==> (p - 1) * PAGE_SIZE < from + bytes
    ensures PageRange(from / PAGE_SIZE, p) == BitmapPages(from, bytes)
  {
    var last := from + bytes + PAGE_SIZE - 1;
    assert p * PAGE_SIZE <= last < (p + 1) * PAGE_SIZE;
  }

  /** The frames that hold some of the `bytes` bytes of the bitmap. */
  function BitmapPages(from: u32, bytes: nat): set<nat> {
    PageRange(from / PAGE_SIZE, (from + bytes + PAGE_SIZE - 1) / PAGE_SIZE)
  }

  /** The first page boundary at or behind an address. */
  lemma PageUpIs(addr: u32)
    requires addr < 0x8000_0000
    ensures PageUp(addr) % 4096 == 0 && addr <= PageUp(addr) < addr + 4096
  {
  }

  /** They are exactly the frames with a byte of the bitmap in them. */
  lemma BitmapPagesIff(from: u32, bytes: nat, f: nat)
    requires from % PAGE_SIZE == 0
    ensures f in BitmapPages(from, bytes) <==> exists b: nat :: from <= b < from + bytes && b / PAGE_SIZE == f
  {
    PageRangeIs(from / PAGE_SIZE, (from + bytes + PAGE_SIZE - 1) / PAGE_SIZE);
    if f in BitmapPages(from, bytes) {
      assert from <= f * PAGE_SIZE < from + bytes && f * PAGE_SIZE / PAGE_SIZE == f;
    }
  }

  // ---------------------------------------------------------------- bits

  lemma AllOnes(m: bv8)
    requires m != 0
    ensures BitSet(0xFF, m)
  {
  }

  /** 1 << i for a bit of one byte. */
  function Mask(i: nat): (m: bv8)
    requires i < 8
    ensures m != 0
  {
    if i == 0 then 0x01 else if i == 1 then 0x02 else if i == 2 then 0x04 else if i == 3 then 0x08
    else if i == 4 then 0x10 else if i == 5 then 0x20 else if i == 6 then 0x40 else 0x80
  }

  lemma MasksApart(i: nat, j: nat)
    requires i < 8 && j < 8 && i != j
    ensures Mask(i) & Mask(j) == 0
  {
  }

  predicate BitSet(b: bv8, m: bv8) {
    b & m != 0
  }

  lemma OrSets(b: bv8, m: bv8, n: bv8)
    requires m != 0
    ensures BitSet(b | m, m) && (m & n == 0 ==> (BitSet(b | m, n) <==> BitSet(b, n)))
  {
  }

  lemma AndNotClears(b: bv8, m: bv8, n: bv8)
    ensures !BitSet(b & !m, m) && (m & n == 0 ==> (BitSet(b & !m, n) <==> BitSet(b, n)))
  {
  }

  /** frame_used. */
  predicate UsedIn(bits: seq<bv8>, f: nat)
    requires f / 8 < |bits|
  {
    BitSet(bits[f / 8], Mask(f % 8))
  }

  lemma SetOneBit(bits: seq<bv8>, f: nat, g: nat)
    requires f / 8 < |bits| && g / 8 < |bits|
    ensures UsedIn(bits[f / 8 := bits[f / 8] | Mask(f % 8)], g) <==> g == f || UsedIn(bits, g)
  {
    hide Mask;
    OrSets(bits[f / 8], Mask(f % 8), Mask(g % 8));
    if f % 8 != g % 8 {
      MasksApart(f % 8, g % 8);
    }
  }

  lemma ClearOneBit(bits: seq<bv8>, f: nat, g: nat)
    requires f / 8 < |bits| && g / 8 < |bits|
    ensures UsedIn(bits[f / 8 := bits[f / 8] & !Mask(f % 8)], g) <==> g != f && UsedIn(bits, g)
  {
    hide Mask;
    AndNotClears(bits[f / 8], Mask(f % 8), Mask(g % 8));
    if f % 8 != g % 8 {
      MasksApart(f % 8, g % 8);
    }
  }

  function FreeIn(bits: seq<bv8>, n: nat): set<nat>
    requires n <= 8 * |bits|
  {
    set f: nat | f < n && !UsedIn(bits, f)
  }

  lemma NothingFree(bits: seq<bv8>, n: nat)
    requires n <= 8 * |bits| && forall i :: 0 <= i < |bits| ==> bits[i] == 0xFF
    ensures FreeIn(bits, n) == {}
  {
    forall f: nat | f < n
      ensures UsedIn(bits, f)
    {
      AllOnes(Mask(f % 8));
    }
  }

  class FrameAllocator {
    const nframes: nat
    const bitmap: array<bv8>
    var framesFree: int

    /** The counter agrees with the bitmap. */
    ghost predicate Valid()
      reads this, bitmap
    {
      nframes < FRAME_LIMIT && nframes <= 8 * bitmap.Length && framesFree == |Free()|
    }

    /** The frames whose bit is clear. */
    ghost function Free(): (s: set<nat>)
      requires nframes <= 8 * bitmap.Length
      reads this, bitmap
      ensures forall f :: f in s ==> f < nframes
    {
      FreeIn(bitmap[..], nframes)
    }

    /** memory_init: everything reserved, then the usable frames cleared, then the bitmap's own pages set. */
    constructor MemoryInit(map': seq<E820Entry>, kernelEnd: u32)
      requires kernelEnd < 0x8000_0000
      ensures Valid() && fresh(bitmap)
      ensures exists top: u32 :: nframes == top / PAGE_SIZE && IsTop(map', top)
      ensures Free() == BootFree(map', nframes) - BitmapPages(PageUp(kernelEnd), (nframes + 7) / 8)
    {
      var memTop := TopUsable(map');
      var n := memTop / PAGE_SIZE;
      var bmPhys := PageUp(kernelEnd);
      var bmBytes := (n + 7) / 8;
      nframes := n;
      framesFree := 0;
      bitmap := new bv8[bmBytes](_ => 0xFF);
      new;
      hide BootFree, BitmapPages, FreeIn, IsTop, PageUp;
      NothingFree(bitmap[..], n);
      FreeUsable(map');
      ReservePages(bmPhys, bmBytes);
    }

    /** The first loop of memory_init. */
    method FreeUsable(map': seq<E820Entry>)
      requires Valid() && Free() == {}
      modifies this`framesFree, bitmap
      ensures Valid() && Free() == BootFree(map', nframes)
    {
      hide FreeIn, BootFree, UsableFrame, InUsable;
      var idx := 0;
      BootFreeStep(map', 0);
      while idx < nframes
        invariant 0 <= idx <= nframes && Valid()
        invariant Free() == BootFree(map', idx)
      {
        BootFreeStep(map', idx);
        UsableFrameTests(map', idx);
        var addr: u32 := idx * PAGE_SIZE;
        var used := false;
        if addr < LOW_END {
          used := true;
        } else if addr >= USER_BASE && addr < USER_TOP {
          used := true;
        } else {
          var usable := IsUsable(map', addr);
          if !usable {
            used := true;
          }
        }
        assert used <==> !UsableFrame(map', idx);
        if !used {
          Drop(idx);
        }
        idx := idx + 1;
      }
    }

    /** The second loop of memory_init: the pages of the bitmap itself. */
    method ReservePages(from: u32, bytes: nat)
      requires Valid() && from % PAGE_SIZE == 0
      modifies this`framesFree, bitmap
      ensures Valid() && Free() == old(Free()) - BitmapPages(from, bytes)
    {
      hide FreeIn, BitmapPages, PageRange;
      ghost var first, p, start := from / PAGE_SIZE, from / PAGE_SIZE, Free();
      var a: int := from;
      while a < from + bytes
        invariant a == p * PAGE_SIZE && first <= p && Valid()
        invariant p > first ==> (p - 1) * PAGE_SIZE < from + bytes
        invariant forall f :: f in Free() <==> f in start && !(first <= f < p)
      {
        var i := a / PAGE_SIZE;
        assert i == p;
        Reserve(i);
        a := a + PAGE_SIZE;
        p := p + 1;
      }
      PagesCover(from, bytes, p);
      PageRangeIs(first, p);
      assert Free() == start - PageRange(first, p);
    }

    /** Sets one frame's bit unless it is out of range or set already. */
    method Reserve(i: nat)
      requires Valid()
      modifies this`framesFree, bitmap
      ensures Valid() && Free() == old(Free()) - {i}
    {
      if i < nframes {
        var used := FrameUsed(i);
        if !used {
          Take(i);
        }
      }
    }

    method FrameUsed(f: nat) returns (used: bool)
      requires Valid() && f < nframes
      ensures used <==> f !in Free()
    {
      used := UsedIn(bitmap[..], f);
    }

    /** frame_set and the counter step beside it. */
    method Take(f: nat)
      requires Valid() && f in Free()
      modifies this`framesFree, bitmap
      ensures Valid() && Free() == old(Free()) - {f} && framesFree == old(framesFree) - 1
    {
      hide UsedIn, Mask;
      ghost var before := bitmap[..];
      bitmap[f / 8] := bitmap[f / 8] | Mask(f % 8);
      framesFree := framesFree - 1;
      forall g: nat | g < nframes
        ensures UsedIn(bitmap[..], g) <==> g == f || UsedIn(before, g)
      {
        SetOneBit(before, f, g);
      }
      assert Free() == old(Free()) - {f};
    }

    /** frame_clear and the counter step beside it. */
    method Drop(f: nat)
      requires Valid() && f < nframes && f !in Free()
      modifies this`framesFree, bitmap
      ensures Valid() && Free() == old(Free()) + {f} && framesFree == old(framesFree) + 1
    {
      ghost var before := bitmap[..];
      bitmap[f / 8] := bitmap[f / 8] & !Mask(f % 8);
      framesFree := framesFree + 1;
      forall g: nat | g < nframes
        ensures UsedIn(bitmap[..], g) <==> g != f && UsedIn(before, g)
      {
        ClearOneBit(before, f, g);
      }
      assert Free() == old(Free()) + {f};
    }

    /** alloc_frame: the lowest free frame's address, or 0. Frame 0 itself is never free. */
    method Alloc() returns (addr: nat)
      requires Valid() && 0 !in Free()
      modifies this`framesFree, bitmap
      ensures Valid()
      ensures addr == 0 ==> Free() == old(Free()) == {} && framesFree == old(framesFree) == 0
      ensures addr != 0 ==>
                addr % PAGE_SIZE == 0 && var f := addr / PAGE_SIZE;
                f in old(Free()) && Free() == old(Free()) - {f} && framesFree == old(framesFree) - 1 &&
                forall g :: g in old(Free()) ==> f <= g
    {
      hide FreeIn;
      var i := 0;
      while i < nframes
        invariant 0 <= i <= nframes
        invariant forall g: nat :: g < i ==> g !in Free()
        modifies {}
      {
        var used := FrameUsed(i);
        if !used {
          break;
        }
        i := i + 1;
      }
      if i < nframes {
        Take(i);
        return i * PAGE_SIZE;
      }
      assert Free() == {};
      addr := 0;
    }

    /** free_frame: ignores addresses past the end and frames already free. */
    method FreeFrame(addr: nat)
      requires Valid()
      modifies this`framesFree, bitmap
      ensures Valid()
      ensures Free() == if addr / PAGE_SIZE < nframes then old(Free()) + {addr / PAGE_SIZE} else old(Free())
    {
      var i := addr / PAGE_SIZE;
      if i < nframes {
        var used := FrameUsed(i);
        if used {
          Drop(i);
        } else {
          assert Free() == Free() + {i};
        }
      }
    }
  }
}
