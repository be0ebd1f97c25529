/** Where tcc_relocate_ex puts sections (tccrun.c): a pass at address zero asks for a size, a second pass at the real address uses it. */
module SectionLayout {
  import opened Arithmetic
  import opened Bytes
  import opened Options

  const PAGESIZE := 4096

  /** The three groups the loop over k visits, and sections in none of them. */
  datatype Kind = Code | ReadOnly | Writable | Other

  const GROUPS: seq<Kind> := [Code, ReadOnly, Writable]

  /** `data` is absent for sections that are all zero. */
  datatype Section = Section(kind: Kind, tls: bool, data: Option<seq<byte>>, length: nat, align: nat, addr: nat)

  predicate SectionOk(s: Section) {
    AlignOk(s.align) && (s.data.Some? ==> s.length <= |s.data.value|)
  }

  /** A power of two up to the page size. */
  predicate AlignOk(a: nat) {
    a > 0 && PAGESIZE % a == 0
  }

  function Zeros(n: nat): seq<byte> {
    seq(n, i => 0)
  }

  function Contents(s: Section): (c: seq<byte>)
    requires SectionOk(s)
    ensures |c| == s.length
  {
    if s.data.Some? then s.data.value[..s.length] else Zeros(s.length)
  }

  // ---------------------------------------------------------------- one pass

  /** `-x & (a - 1)` for a power of two. */
  function Pad(x: int, a: int): nat
    requires a > 0
  {
    (-x) % a
  }

  function PageUp(x: nat): nat {
    x + Pad(x, PAGESIZE)
  }

  /** A section's turn: which one, in which group, and whether it is the group's first. */
  datatype Visit = Visit(index: nat, group: nat, first: bool)

  /** The turns still to come when the loops stand at group `k` and section `i`. */
  function Visits(sections: seq<Section>, k: nat, i: nat, first: bool): seq<Visit>
    decreases 3 - k, |sections| - i
  {
    if k >= 3 then []
    else if i >= |sections| then Visits(sections, k + 1, 1, true)
    else if sections[i].kind == GROUPS[k] then [Visit(i, k, first)] + Visits(sections, k, i + 1, false)
    else Visits(sections, k, i + 1, first)
  }

  /** Code starts on its own page, every group's first section in its own 64-byte unit. */
  function Effective(align: nat, v: Visit): nat {
    if !v.first then align else if v.group == 0 then PAGESIZE else if align < 64 then 64 else align
  }

  datatype Laid = Laid(sections: seq<Section>, end: nat, ok: bool)

  /** The turns in order; thread-local data is refused. */
  function Lay(sections: seq<Section>, visits: seq<Visit>, mem: nat, offset: nat): Laid
    requires (forall v :: v in visits ==> v.index < |sections|) && AllOk(sections)
    decreases visits
  {
    if visits == [] then Laid(sections, offset, true) else
    var v := visits[0];
    var s := sections[v.index];
    if s.tls && s.length > 0 then Laid(sections, offset, false) else
    Lay(sections[v.index := Placed(s, v, mem, offset)], visits[1..], mem, After(s, v, mem, offset))
  }

  predicate AllOk(sections: seq<Section>) {
    forall i :: 0 <= i < |sections| ==> SectionOk(sections[i])
  }

  function Placed(s: Section, v: Visit, mem: nat, offset: nat): (r: Section)
    requires SectionOk(s)
    ensures SectionOk(r) && Contents(r) == Contents(s) && r.kind == s.kind && r.tls == s.tls && r.length == s.length
  {
    EffectiveOk(s.align, v);
    var align := Effective(s.align, v);
    s.(align := align, addr := if mem != 0 then mem + offset + Pad(mem + offset, align) else 0)
  }

  function After(s: Section, v: Visit, mem: nat, offset: nat): nat
    requires SectionOk(s)
  {
    EffectiveOk(s.align, v);
    offset + Pad(mem + offset, Effective(s.align, v)) + s.length
  }

  lemma EffectiveOk(align: nat, v: Visit)
    requires AlignOk(align)
    ensures AlignOk(Effective(align, v)) && Effective(Effective(align, v), v) == Effective(align, v)
  {
  }

  function Pass(sections: seq<Section>, mem: nat): Laid
    requires AllOk(sections)
  {
    VisitsInRange(sections, 0, 1, true);
    Lay(sections, Visits(sections, 0, 1, true), mem, 0)
  }

  /** The turns are of distinct sections. */
  predicate Distinct(visits: seq<Visit>) {
    forall a, b :: 0 <= a < b < |visits| ==> visits[a].index != visits[b].index
  }

  lemma {:induction false} VisitsInRange(sections: seq<Section>, k: nat, i: nat, first: bool)
    ensures var vs := Visits(sections, k, i, first);
            forall v :: v in vs ==> v.index < |sections| && v.group >= k && (v.group == k ==> v.index >= i)
                                    && v.group < 3 && sections[v.index].kind == GROUPS[v.group]
    decreases 3 - k, |sections| - i
  {
    if k >= 3 {
    } else if i >= |sections| {
      VisitsInRange(sections, k + 1, 1, true);
    } else {
      VisitsInRange(sections, k, i + 1, false);
      VisitsInRange(sections, k, i + 1, first);
    }
  }

  lemma {:induction false} VisitsDistinct(sections: seq<Section>, k: nat, i: nat, first: bool)
    ensures Distinct(Visits(sections, k, i, first))
    decreases 3 - k, |sections| - i
  {
    if k >= 3 {
    } else if i >= |sections| {
      VisitsDistinct(sections, k + 1, 1, true);
    } else if sections[i].kind == GROUPS[k] {
      VisitsDistinct(sections, k, i + 1, false);
      VisitsInRange(sections, k, i + 1, false);
      GroupsDiffer(sections, k, i, Visits(sections, k, i + 1, false));
      ConsDistinct(Visit(i, k, first), Visits(sections, k, i + 1, false));
    } else {
      VisitsDistinct(sections, k, i + 1, first);
    }
  }

  lemma GroupsDiffer(sections: seq<Section>, k: nat, i: nat, rest: seq<Visit>)
    requires k < 3 && i < |sections| && sections[i].kind == GROUPS[k]
    requires forall v :: v in rest ==> v.index < |sections| && v.group >= k && (v.group == k ==> v.index >= i + 1)
                                       && v.group < 3 && sections[v.index].kind == GROUPS[v.group]
    ensures forall v :: v in rest ==> v.index != i
  {
  }

  lemma ConsDistinct(v: Visit, rest: seq<Visit>)
    requires Distinct(rest) && forall u :: u in rest ==> u.index != v.index
    ensures Distinct([v] + rest)
  {
    assert forall b :: 0 <= b < |rest| ==> rest[b] in rest;
  }

  /** Every section of a group gets a turn, except number zero. */
  lemma {:induction false} VisitsCover(sections: seq<Section>, k: nat, i: nat, first: bool, index: nat)
    requires index < |sections| && sections[index].kind != Other && index >= 1
    requires GroupOf(sections[index].kind) > k || (GroupOf(sections[index].kind) == k && index >= i)
    ensures exists v :: v in Visits(sections, k, i, first) && v.index == index
    decreases 3 - k, |sections| - i
  {
    if i >= |sections| {
      VisitsCover(sections, k + 1, 1, true, index);
    } else if sections[i].kind == GROUPS[k] {
      if i == index && GroupOf(sections[index].kind) == k {
        assert Visit(i, k, first) in Visits(sections, k, i, first);
      } else {
        VisitsCover(sections, k, i + 1, false, index);
        var v :| v in Visits(sections, k, i + 1, false) && v.index == index;
        assert v in Visits(sections, k, i, first);
      }
    } else {
      VisitsCover(sections, k, i + 1, first, index);
    }
  }

  function GroupOf(k: Kind): nat {
    match k case Code => 0 case ReadOnly => 1 case Writable => 2 case Other => 3
  }

  /** The turns depend on the kinds only. */
  lemma {:induction false} VisitsSame(a: seq<Section>, b: seq<Section>, k: nat, i: nat, first: bool)
    requires |a| == |b| && forall j :: 0 <= j < |a| ==> a[j].kind == b[j].kind
    ensures Visits(a, k, i, first) == Visits(b, k, i, first)
    decreases 3 - k, |a| - i
  {
    if k < 3 {
      if i >= |a| {
        VisitsSame(a, b, k + 1, 1, true);
      } else {
        VisitsSame(a, b, k, i + 1, false);
        VisitsSame(a, b, k, i + 1, first);
      }
    }
  }

  // ---------------------------------------------------------------- what a pass keeps and gives

  /** Only address and alignment change. */
  predicate SameButPlace(s: Section, t: Section) {
    t == s.(align := t.align, addr := t.addr)
  }

  predicate Turn(visits: seq<Visit>, i: nat) {
    exists v :: v in visits && v.index == i
  }

  /** The section lies aligned between two addresses. */
  predicate Inside(s: Section, low: nat, high: nat) {
    s.align > 0 && s.addr % s.align == 0 && low <= s.addr && s.addr + s.length <= high
  }

  predicate ApartFrom(s: Section, t: Section) {
    s.addr + s.length <= t.addr || t.addr + t.length <= s.addr
  }

  lemma PadAligns(x: int, a: int)
    requires a > 0
    ensures (x + Pad(x, a)) % a == 0 && 0 <= Pad(x, a) < a
  {
    var q, r := (-x) / a, (-x) % a;
    assert -x == a * q + r;
    assert x + r == a * (-q) by { assert a * (-q) == -(a * q); }
    ModMultiple(a, -q);
  }

  predicate AllInside(sections: seq<Section>, visits: seq<Visit>, low: nat, high: nat) {
    forall v {:trigger v.index} :: v in visits && v.index < |sections| ==> Inside(sections[v.index], low, high)
  }

  predicate AllApart(sections: seq<Section>, visits: seq<Visit>) {
    forall v, u {:trigger v.index, u.index} ::
      v in visits && u in visits && v.index < |sections| && u.index < |sections| && v.index != u.index ==>
        ApartFrom(sections[v.index], sections[u.index])
  }

  /** The visited sections come out aligned, from `mem + offset` up to the end, and pairwise apart. */
  lemma {:induction false} LayPlaces(sections: seq<Section>, visits: seq<Visit>, mem: nat, offset: nat)
    requires (forall v :: v in visits ==> v.index < |sections|) && AllOk(sections) && Distinct(visits) && mem != 0
    ensures var l := Lay(sections, visits, mem, offset);
            l.end >= offset
            && (l.ok ==> AllInside(l.sections, visits, mem + offset, mem + l.end) && AllApart(l.sections, visits))
    decreases visits
  {
    hide Pad, AlignOk, Contents, AllInside, AllApart, Distinct, Inside;
    if visits == [] {
      NothingPlaced(sections, mem, offset);
    } else if !(sections[visits[0].index].tls && sections[visits[0].index].length > 0) {
      var v, rest := visits[0], visits[1..];
      var s := sections[v.index];
      var next, after := sections[v.index := Placed(s, v, mem, offset)], After(s, v, mem, offset);
      RestDistinct(visits);
      LayPlaces(next, rest, mem, after);
      LayKeeps(next, rest, mem, after);
      var l := Lay(next, rest, mem, after);
      PlacedInside(s, v, mem, offset);
      assert l.sections[v.index] == next[v.index];
      if l.ok {
        FirstPlaced(l.sections, visits, mem + offset, mem + after, mem + l.end);
      }
    }
  }

  lemma NothingPlaced(sections: seq<Section>, mem: nat, offset: nat)
    ensures AllInside(sections, [], mem + offset, mem + offset) && AllApart(sections, [])
  {
  }

  lemma RestDistinct(visits: seq<Visit>)
    requires visits != [] && Distinct(visits)
    ensures Distinct(visits[1..]) && !Turn(visits[1..], visits[0].index)
  {
    var rest := visits[1..];
    forall b | 0 <= b < |rest| ensures rest[b].index != visits[0].index {
      assert rest[b] == visits[b + 1];
    }
  }

  lemma PlacedInside(s: Section, v: Visit, mem: nat, offset: nat)
    requires SectionOk(s) && mem != 0
    ensures Inside(Placed(s, v, mem, offset), mem + offset, mem + After(s, v, mem, offset))
    ensures After(s, v, mem, offset) >= offset
  {
    hide Pad, Contents;
    EffectiveOk(s.align, v);
    PadAligns(mem + offset, Effective(s.align, v));
  }

  /** The first section lies below all the others. */
  lemma FirstPlaced(sections: seq<Section>, visits: seq<Visit>, low: nat, middle: nat, high: nat)
    requires visits != [] && visits[0].index < |sections| && low <= middle <= high
    requires Inside(sections[visits[0].index], low, middle)
    requires AllInside(sections, visits[1..], middle, high) && AllApart(sections, visits[1..])
    ensures AllInside(sections, visits, low, high) && AllApart(sections, visits)
  {
    forall v | v in visits && v.index < |sections| ensures Inside(sections[v.index], low, high) {
      assert v == visits[0] || v in visits[1..];
    }
    forall v, u | v in visits && u in visits && v.index < |sections| && u.index < |sections| && v.index != u.index
      ensures ApartFrom(sections[v.index], sections[u.index])
    {
      assert v == visits[0] || v in visits[1..];
      assert u == visits[0] || u in visits[1..];
    }
  }

  /** A pass changes addresses and alignments of visited sections only; an alignment becomes the effective one. */
  lemma {:induction false} LayKeeps(sections: seq<Section>, visits: seq<Visit>, mem: nat, offset: nat)
    requires (forall v :: v in visits ==> v.index < |sections|) && AllOk(sections) && Distinct(visits)
    ensures var l := Lay(sections, visits, mem, offset);
            && |l.sections| == |sections| && AllOk(l.sections)
            && (forall i :: 0 <= i < |sections| ==> SameButPlace(sections[i], l.sections[i]))
            && (forall i :: 0 <= i < |sections| && !Turn(visits, i) ==> l.sections[i] == sections[i])
            && (l.ok ==> forall v {:trigger v.index} :: v in visits ==>
                           l.sections[v.index].align == Effective(sections[v.index].align, v))
    decreases visits
  {
    hide Pad, AlignOk, Contents, Distinct, Effective;
    if visits != [] && !(sections[visits[0].index].tls && sections[visits[0].index].length > 0) {
      var v, rest := visits[0], visits[1..];
      var s := sections[v.index];
      var next := sections[v.index := Placed(s, v, mem, offset)];
      RestDistinct(visits);
      LayKeeps(next, rest, mem, After(s, v, mem, offset));
      assert v in visits;
      forall i | 0 <= i < |sections| && Turn(rest, i) ensures Turn(visits, i) {
        var u :| u in rest && u.index == i;
        assert u in visits;
      }
      forall u | u in rest ensures u.index != v.index {
        assert !Turn(rest, v.index);
      }
    }
  }

  // ---------------------------------------------------------------- two passes

  /** `x` rounded up to `a` is the least multiple of `a` not below `x`. */
  lemma LeastMultiple(x: int, z: int, a: int)
    requires a > 0 && z % a == 0 && z >= x
    ensures x + Pad(x, a) <= z
  {
    PadAligns(x, a);
    var p, q := (x + Pad(x, a)) / a, z / a;
    assert x + Pad(x, a) == a * p && z == a * q;
    assert a * (q + 1) == z + a;
    if p > q {
      MulLe(a, q + 1, p);
    }
  }

  lemma PadMono(x: int, y: int, base: int, a: nat)
    requires AlignOk(a) && base % PAGESIZE == 0 && x <= base + y
    ensures x + Pad(x, a) <= base + y + Pad(y, a)
  {
    hide Pad;
    PadAligns(y, a);
    var m, n, k := base / PAGESIZE, PAGESIZE / a, (y + Pad(y, a)) / a;
    assert base == PAGESIZE * m && PAGESIZE == a * n && y + Pad(y, a) == a * k;
    assert base + (y + Pad(y, a)) == a * (n * m + k) by {
      assert a * n * m == a * (n * m);
      assert a * (n * m + k) == a * (n * m) + a * k;
    }
    ModMultiple(a, n * m + k);
    LeastMultiple(x, base + (y + Pad(y, a)), a);
  }

  /** The same turns with the same lengths and the same effective alignments. */
  predicate Twins(a: seq<Section>, b: seq<Section>, visits: seq<Visit>) {
    |a| == |b| && (forall v :: v in visits ==> v.index < |a|)
    && forall v {:trigger v.index} :: v in visits ==> Twin(a[v.index], b[v.index], v)
  }

  predicate Twin(s: Section, t: Section, v: Visit) {
    s.length == t.length && s.tls == t.tls && Effective(s.align, v) == Effective(t.align, v)
  }

  /** Wherever the second pass starts, it stays within a page round-up of the first. */
  lemma {:induction false} LayBound(a: seq<Section>, b: seq<Section>, visits: seq<Visit>, mem: nat, o1: nat, o2: nat)
    requires Twins(a, b, visits) && AllOk(a) && AllOk(b) && Distinct(visits)
    requires mem + o2 <= PageUp(mem) + o1
    ensures Lay(a, visits, 0, o1).ok <==> Lay(b, visits, mem, o2).ok
    ensures mem + Lay(b, visits, mem, o2).end <= PageUp(mem) + Lay(a, visits, 0, o1).end
    decreases visits
  {
    hide Pad, AlignOk, Contents, Distinct, Effective, PageUp;
    if visits != [] {
      var v, rest := visits[0], visits[1..];
      var s, t := a[v.index], b[v.index];
      assert Twin(s, t, v);
      if !(s.tls && s.length > 0) {
        RestDistinct(visits);
        EffectiveOk(s.align, v);
        PadAligns(mem, PAGESIZE);
        PageUpIs(mem);
        PadMono(mem + o2, o1, PageUp(mem), Effective(s.align, v));
        var a2, b2 := a[v.index := Placed(s, v, 0, o1)], b[v.index := Placed(t, v, mem, o2)];
        assert Twins(a2, b2, rest) by {
          forall u | u in rest ensures u.index < |a| && Twin(a2[u.index], b2[u.index], u) {
            assert u in visits && Twin(a[u.index], b[u.index], u);
            assert u.index != v.index by { assert !Turn(rest, v.index); }
          }
        }
        LayBound(a2, b2, rest, mem, After(s, v, 0, o1), After(t, v, mem, o2));
      }
    }
  }

  lemma PageUpIs(mem: nat)
    ensures PageUp(mem) == mem + Pad(mem, PAGESIZE)
    ensures mem <= PageUp(mem) < mem + PAGESIZE && PageUp(mem) % PAGESIZE == 0
    ensures mem % PAGESIZE == 0 ==> PageUp(mem) == mem
  {
    PadAligns(mem, PAGESIZE);
  }

  /**
   * The size the pass at address zero returns is enough for the pass at any real address: every section is placed
   * aligned, apart from the others, inside the block if that starts on a page, and inside one page more if not.
   */
  lemma SizeSuffices(sections: seq<Section>, mem: nat)
    requires AllOk(sections) && mem != 0 && Pass(sections, 0).ok
    ensures AllOk(Pass(sections, 0).sections)
    ensures var size := PageUp(Pass(sections, 0).end);
            var second := Pass(Pass(sections, 0).sections, mem);
            var visits := Visits(sections, 0, 1, true);
            && second.ok && AllApart(second.sections, visits)
            && AllInside(second.sections, visits, mem, PageUp(mem) + size)
            && (mem % PAGESIZE == 0 ==> PageUp(mem) + size == mem + size)
            && PageUp(mem) + size < mem + size + PAGESIZE
  {
    hide Pad, AlignOk, Contents, Distinct, Effective, PageUp, AllInside, AllApart, Inside;
    var visits := Visits(sections, 0, 1, true);
    VisitsInRange(sections, 0, 1, true);
    VisitsDistinct(sections, 0, 1, true);
    LayKeeps(sections, visits, 0, 0);
    var first := Pass(sections, 0);
    VisitsSame(sections, first.sections, 0, 1, true);
    forall v | v in visits ensures Twin(sections[v.index], first.sections[v.index], v) {
      EffectiveOk(sections[v.index].align, v);
      assert SameButPlace(sections[v.index], first.sections[v.index]);
    }
    PageUpIs(mem);
    PageUpIs(first.end);
    LayBound(sections, first.sections, visits, mem, 0, 0);
    LayPlaces(first.sections, visits, mem, 0);
    var second := Pass(first.sections, mem);
    Widen(second.sections, visits, mem, mem + second.end, PageUp(mem) + PageUp(first.end));
  }

  /** The sections follow one another from one address to the other, each less than its alignment behind the end of the last. */
  predicate Packed(sections: seq<Section>, visits: seq<Visit>, from: nat, to: nat)
    requires forall v :: v in visits ==> v.index < |sections|
  {
    if visits == [] then from == to
    else
      var s := sections[visits[0].index];
      from <= s.addr < from + s.align && Packed(sections, visits[1..], s.addr + s.length, to)
  }

  /** A pass wastes nothing between the sections but what aligns the next one. */
  lemma {:induction false} LayPacks(sections: seq<Section>, visits: seq<Visit>, mem: nat, offset: nat)
    requires (forall v :: v in visits ==> v.index < |sections|) && AllOk(sections) && Distinct(visits) && mem != 0
    requires Lay(sections, visits, mem, offset).ok
    ensures var l := Lay(sections, visits, mem, offset);
            |l.sections| == |sections| && Packed(l.sections, visits, mem + offset, mem + l.end)
    decreases visits
  {
    hide Pad, AlignOk, Contents, Distinct, Effective;
    LayKeeps(sections, visits, mem, offset);
    if visits != [] {
      var v, rest := visits[0], visits[1..];
      var s := sections[v.index];
      var next := sections[v.index := Placed(s, v, mem, offset)];
      RestDistinct(visits);
      EffectiveOk(s.align, v);
      EffectiveIsPositive(s.align, v);
      PadAligns(mem + offset, Effective(s.align, v));
      LayPacks(next, rest, mem, After(s, v, mem, offset));
      LayKeeps(next, rest, mem, After(s, v, mem, offset));
    }
  }

  lemma EffectiveIsPositive(align: nat, v: Visit)
    requires AlignOk(align)
    ensures Effective(align, v) > 0 && PAGESIZE % Effective(align, v) == 0
  {
    EffectiveOk(align, v);
  }

  /** A multiple of the page does not change the padding. */
  lemma PadOnPage(base: nat, x: nat, a: nat)
    requires AlignOk(a) && base % PAGESIZE == 0
    ensures Pad(base + x, a) == Pad(x, a)
  {
    hide Pad, AlignOk;
    assert a > 0 && PAGESIZE % a == 0 by { AlignDivides(a); }
    PadAligns(x, a);
    PadAligns(base + x, a);
    PageMultiple(base, a);
    PadMono(base + x, x, base, a);
    assert (base + x + Pad(base + x, a) - base) % a == 0 by { ModMinus(base + x + Pad(base + x, a), base, a); }
    LeastMultiple(x, x + Pad(base + x, a), a);
  }

  lemma AlignDivides(a: nat)
    requires AlignOk(a)
    ensures a > 0 && PAGESIZE % a == 0
  {
  }

  lemma PageMultiple(base: nat, a: nat)
    requires a > 0 && PAGESIZE % a == 0 && base % PAGESIZE == 0
    ensures base % a == 0
  {
    var m, n := base / PAGESIZE, PAGESIZE / a;
    assert base == a * (n * m) by { assert base == PAGESIZE * m && PAGESIZE == a * n && a * n * m == a * (n * m); }
    ModMultiple(a, n * m);
  }

  lemma ModMinus(x: int, y: int, a: int)
    requires a > 0 && x % a == 0 && y % a == 0
    ensures (x - y) % a == 0
  {
    assert x == a * (x / a) && y == a * (y / a);
    assert x - y == a * (x / a - y / a);
    ModMultiple(a, x / a - y / a);
  }

  /** On a page, the second pass ends where the first one did. */
  lemma {:induction false} LayEndsAlike(a: seq<Section>, b: seq<Section>, visits: seq<Visit>, mem: nat, offset: nat)
    requires Twins(a, b, visits) && AllOk(a) && AllOk(b) && Distinct(visits) && mem % PAGESIZE == 0
    ensures Lay(b, visits, mem, offset).end == Lay(a, visits, 0, offset).end
    decreases visits
  {
    hide Pad, AlignOk, Contents, Distinct, Effective, PageUp;
    if visits != [] {
      var v, rest := visits[0], visits[1..];
      var s, t := a[v.index], b[v.index];
      assert Twin(s, t, v);
      if !(s.tls && s.length > 0) {
        RestDistinct(visits);
        EffectiveOk(s.align, v);
        PadOnPage(mem, offset, Effective(s.align, v));
        TwinsNext(a, b, visits, Placed(s, v, 0, offset), Placed(t, v, mem, offset));
        LayEndsAlike(a[v.index := Placed(s, v, 0, offset)], b[v.index := Placed(t, v, mem, offset)], rest, mem, After(s, v, 0, offset));
      }
    }
  }

  lemma TwinsNext(a: seq<Section>, b: seq<Section>, visits: seq<Visit>, s: Section, t: Section)
    requires visits != [] && Twins(a, b, visits) && !Turn(visits[1..], visits[0].index)
    ensures Twins(a[visits[0].index := s], b[visits[0].index := t], visits[1..])
  {
    hide Effective;
    forall u | u in visits[1..]
      ensures u.index < |a| && Twin(a[visits[0].index := s][u.index], b[visits[0].index := t][u.index], u)
    {
      assert u in visits && Twin(a[u.index], b[u.index], u);
    }
  }

  /** The size is tight: in a block that starts on a page the sections follow one another without waste, and less than a page of the
      block is left behind the last one. */
  lemma SizeIsTight(sections: seq<Section>, mem: nat)
    requires AllOk(sections) && mem != 0 && mem % PAGESIZE == 0 && Pass(sections, 0).ok
    ensures AllOk(Pass(sections, 0).sections)
    ensures var size := PageUp(Pass(sections, 0).end);
            var second := Pass(Pass(sections, 0).sections, mem);
            var visits := Visits(sections, 0, 1, true);
            && |second.sections| == |sections| && (forall v :: v in visits ==> v.index < |sections|)
            && Packed(second.sections, visits, mem, mem + second.end)
            && mem + second.end <= mem + size < mem + second.end + PAGESIZE
  {
    hide Pad, AlignOk, Contents, Distinct, Effective, PageUp, AllInside, AllApart, Inside, Packed;
    var visits := Visits(sections, 0, 1, true);
    SizeSuffices(sections, mem);
    VisitsInRange(sections, 0, 1, true);
    VisitsDistinct(sections, 0, 1, true);
    LayKeeps(sections, visits, 0, 0);
    var first := Pass(sections, 0);
    VisitsSame(sections, first.sections, 0, 1, true);
    forall v | v in visits ensures Twin(sections[v.index], first.sections[v.index], v) {
      EffectiveOk(sections[v.index].align, v);
      assert SameButPlace(sections[v.index], first.sections[v.index]);
    }
    PageUpIs(first.end);
    LayEndsAlike(sections, first.sections, visits, mem, 0);
    LayPacks(first.sections, visits, mem, 0);
  }

  // ---------------------------------------------------------------- code and data apart

  /** An earlier or the same turn opens the group of turn `b`. */
  predicate Opened(visits: seq<Visit>, b: nat)
    requires b < |visits|
  {
    exists c :: 0 <= c <= b && visits[c].first && visits[c].group == visits[b].group
  }

  predicate Grouped(visits: seq<Visit>, k: nat) {
    forall a, b {:trigger visits[a], visits[b]} :: 0 <= a <= b < |visits| ==> k <= visits[a].group <= visits[b].group
  }

  /** Every group has a first turn, except perhaps the one that is under way. */
  predicate AllOpened(visits: seq<Visit>, k: nat, first: bool) {
    forall b :: 0 <= b < |visits| ==> (visits[b].group == k && !first) || Opened(visits, b)
  }

  lemma OneMoreTurn(v: Visit, rest: seq<Visit>)
    requires Grouped(rest, v.group) && AllOpened(rest, v.group, false)
    ensures Grouped([v] + rest, v.group) && AllOpened([v] + rest, v.group, v.first)
  {
    var vs := [v] + rest;
    forall b | 0 <= b < |vs|
      ensures (vs[b].group == v.group && !v.first) || Opened(vs, b)
    {
      if vs[b].group == v.group {
        assert vs[0].first == v.first && vs[0].group == vs[b].group;
      } else {
        assert vs[b] == rest[b - 1] && Opened(rest, b - 1);
        var c :| 0 <= c <= b - 1 && rest[c].first && rest[c].group == rest[b - 1].group;
        assert vs[c + 1] == rest[c];
      }
    }
  }

  /** Groups come one after the other, each with a first turn. */
  lemma {:induction false} VisitsShape(sections: seq<Section>, k: nat, i: nat, first: bool)
    ensures Grouped(Visits(sections, k, i, first), k) && AllOpened(Visits(sections, k, i, first), k, first)
    decreases 3 - k, |sections| - i
  {
    hide Opened;
    if k >= 3 {
    } else if i >= |sections| {
      VisitsShape(sections, k + 1, 1, true);
      ShapeFromNext(Visits(sections, k + 1, 1, true), k, first);
    } else if sections[i].kind == GROUPS[k] {
      VisitsShape(sections, k, i + 1, false);
      OneMoreTurn(Visit(i, k, first), Visits(sections, k, i + 1, false));
    } else {
      VisitsShape(sections, k, i + 1, first);
    }
  }

  lemma ShapeFromNext(visits: seq<Visit>, k: nat, first: bool)
    requires Grouped(visits, k + 1) && AllOpened(visits, k + 1, true)
    ensures Grouped(visits, k) && AllOpened(visits, k, first)
  {
  }

  /** In a packed layout later turns lie higher. */
  lemma {:induction false} PackedOrder(sections: seq<Section>, visits: seq<Visit>, from: nat, to: nat, a: int, b: nat)
    requires (forall v :: v in visits ==> v.index < |sections|) && Packed(sections, visits, from, to)
    requires -1 <= a < b < |visits|
    ensures sections[visits[b].index].addr >= if a < 0 then from else sections[visits[a].index].addr + sections[visits[a].index].length
    decreases visits
  {
    var s, rest := sections[visits[0].index], visits[1..];
    if b > 0 {
      assert rest[b - 1] == visits[b];
      PackedOrder(sections, rest, s.addr + s.length, to, if a <= 0 then -1 else a - 1, b - 1);
      if a > 0 {
        assert rest[a - 1] == visits[a];
      }
    }
  }

  /** The first section of every group starts a 64-byte unit. */
  predicate FirstsAligned(sections: seq<Section>, visits: seq<Visit>) {
    forall v :: v in visits && v.first && v.index < |sections| ==> sections[v.index].addr % 64 == 0
  }

  lemma UnitsOf(sections: seq<Section>, visits: seq<Visit>, from: nat, to: nat, a: nat, b: nat, x: nat, y: nat)
    requires (forall v :: v in visits ==> v.index < |sections|) && Packed(sections, visits, from, to)
    requires Grouped(visits, 0) && AllOpened(visits, 0, true) && FirstsAligned(sections, visits)
    requires a < |visits| && b < |visits| && visits[a].group < visits[b].group
    requires sections[visits[a].index].addr <= x < sections[visits[a].index].addr + sections[visits[a].index].length
    requires sections[visits[b].index].addr <= y
    ensures x / 64 < y / 64
  {
    hide Packed, FirstsAligned, Grouped, AllOpened;
    var c := Opener(visits, a, b);
    PackedOrder(sections, visits, from, to, a, c);
    if c < b {
      PackedOrder(sections, visits, from, to, c, b);
    }
    FirstIsAligned(sections, visits, c);
    UnitBelow(x, sections[visits[c].index].addr, y);
  }

  /** The first turn of the later group comes after the earlier group. */
  lemma Opener(visits: seq<Visit>, a: nat, b: nat) returns (c: nat)
    requires Grouped(visits, 0) && AllOpened(visits, 0, true) && a < |visits| && b < |visits| && visits[a].group < visits[b].group
    ensures a < c <= b && visits[c].first
  {
    assert Opened(visits, b);
    c :| 0 <= c <= b && visits[c].first && visits[c].group == visits[b].group;
  }

  lemma FirstIsAligned(sections: seq<Section>, visits: seq<Visit>, c: nat)
    requires FirstsAligned(sections, visits) && c < |visits| && visits[c].first && visits[c].index < |sections|
    ensures sections[visits[c].index].addr % 64 == 0
  {
    assert visits[c] in visits;
  }

  lemma UnitBelow(x: nat, z: nat, y: nat)
    requires x < z <= y && z % 64 == 0
    ensures x / 64 < y / 64
  {
  }

  /** No two groups share a 64-byte unit: bytes of an earlier group lie in lower units than bytes of a later one. */
  lemma UnitsApart(sections: seq<Section>, mem: nat, a: nat, b: nat, x: nat, y: nat)
    requires AllOk(sections) && mem != 0 && Pass(sections, mem).ok
    requires var visits := Visits(sections, 0, 1, true);
             a < |visits| && b < |visits| && visits[a].group < visits[b].group
    ensures |Pass(sections, mem).sections| == |sections| && forall v :: v in Visits(sections, 0, 1, true) ==> v.index < |sections|
    ensures var placed, visits := Pass(sections, mem).sections, Visits(sections, 0, 1, true);
            var s, t := placed[visits[a].index], placed[visits[b].index];
            s.addr <= x < s.addr + s.length && t.addr <= y ==> x / 64 < y / 64
  {
    hide Pad, AlignOk, Contents, Distinct, AllInside, AllApart, Packed, Visits, Lay, Grouped, AllOpened, FirstsAligned, Effective;
    var placed, visits := Pass(sections, mem).sections, Visits(sections, 0, 1, true);
    VisitsInRange(sections, 0, 1, true);
    VisitsDistinct(sections, 0, 1, true);
    VisitsShape(sections, 0, 1, true);
    LayKeeps(sections, visits, mem, 0);
    LayPlaces(sections, visits, mem, 0);
    LayPacks(sections, visits, mem, 0);
    FirstsAre(sections, placed, visits, mem, mem + Pass(sections, mem).end);
    var s, t := placed[visits[a].index], placed[visits[b].index];
    if s.addr <= x < s.addr + s.length && t.addr <= y {
      UnitsOf(placed, visits, mem, mem + Pass(sections, mem).end, a, b, x, y);
    }
  }

  lemma FirstsAre(sections: seq<Section>, placed: seq<Section>, visits: seq<Visit>, low: nat, high: nat)
    requires AllOk(sections) && |placed| == |sections| && AllInside(placed, visits, low, high)
    requires forall v {:trigger v.index} :: v in visits ==>
               v.index < |sections| && placed[v.index].align == Effective(sections[v.index].align, v)
    ensures FirstsAligned(placed, visits)
  {
    hide AllInside, AlignOk, Effective;
    forall v | v in visits && v.first && v.index < |placed|
      ensures placed[v.index].addr % 64 == 0
    {
      assert SectionOk(sections[v.index]);
      AlignedUnit(sections[v.index].align, v, placed[v.index], low, high, placed, visits);
    }
  }

  lemma AlignedUnit(align: nat, v: Visit, s: Section, low: nat, high: nat, placed: seq<Section>, visits: seq<Visit>)
    requires AllInside(placed, visits, low, high) && v in visits && v.index < |placed| && s == placed[v.index]
    requires AlignOk(align) && v.first && s.align == Effective(align, v)
    ensures s.addr % 64 == 0
  {
    assert Inside(s, low, high);
    EffectiveOk(align, v);
    UnitDivides(s.addr, s.align);
  }

  /** An alignment of 64 or more, or of a page, is a multiple of 64. */
  lemma UnitDivides(x: nat, a: nat)
    requires AlignOk(a) && a >= 64 && x % a == 0
    ensures x % 64 == 0
  {
    PowersOfTwo(a);
    var n := a / 64;
    assert x == 64 * (n * (x / a)) by { assert x == a * (x / a) && a == 64 * n && 64 * n * (x / a) == 64 * (n * (x / a)); }
    ModMultiple(64, n * (x / a));
  }

  /** A divisor of the page of 64 bytes or more. */
  lemma PowersOfTwo(a: nat)
    requires AlignOk(a) && a >= 64
    ensures a % 64 == 0
  {
    var q := PAGESIZE / a;
    QuotientRange(a, q);
    if q > 16 {
      LargeQuotient(a, q);
    }
  }

  lemma QuotientRange(a: nat, q: nat)
    requires a >= 64 && PAGESIZE % a == 0 && q == PAGESIZE / a
    ensures a * q == PAGESIZE && 1 <= q <= 64
  {
    assert PAGESIZE == a * q;
    if q > 64 {
      MulLe(a, 65, q);
    }
  }

  lemma LargeQuotient(a: nat, q: nat)
    requires a * q == PAGESIZE && 16 < q <= 64
    ensures a % 64 == 0
  {
  }

  lemma Widen(sections: seq<Section>, visits: seq<Visit>, low: nat, high: nat, higher: nat)
    requires AllInside(sections, visits, low, high) && high <= higher
    ensures AllInside(sections, visits, low, higher)
  {
  }

  // ---------------------------------------------------------------- the method

  class Linker {
    var sections: seq<Section>

    /** The layout loop: three groups, each over all sections but number zero; `mem` is zero in the sizing pass. */
    method LayOut(mem: nat) returns (size: int)
      requires AllOk(sections)
      modifies this
      ensures AllOk(sections) && sections == Pass(old(sections), mem).sections
      ensures size == if !Pass(old(sections), mem).ok then -1 else if mem == 0 then PageUp(Pass(old(sections), 0).end) else 0
    {
      hide Pad, AlignOk, Contents, PageUp, Effective, Lay, Visits;
      ghost var all := Pass(sections, mem);
      var offset: nat := 0;
      var k := 0;
      while k < 3
        invariant k <= 3 && AllOk(sections)
        invariant LeftToDo(sections, k, 1, true, mem, offset) == all
        modifies this
      {
        var n := 0;
        var i := 1;
        while i < |sections|
          invariant 1 <= i && AllOk(sections)
          invariant LeftToDo(sections, k, i, n == 0, mem, offset) == all
          modifies this
          decreases |sections| - i
        {
          var s := sections[i];
          if s.kind == GROUPS[k] {
            var v := Visit(i, k, n == 0);
            TurnDone(sections, k, i, n == 0, mem, offset);
            if s.tls && s.length > 0 {
              return -1;
            }
            var align := s.align;
            n := n + 1;
            if n == 1 {
              if align < 64 {
                align := 64;
              }
              if k == 0 {
                align := PAGESIZE;
              }
            }
            EffectiveIs(s.align, v, align);
            offset := offset + Pad(mem + offset, align);
            sections := sections[i := s.(align := align, addr := if mem != 0 then mem + offset else 0)];
            offset := offset + s.length;
          } else {
            NoTurn(sections, k, i, n == 0, mem, offset);
          }
          i := i + 1;
        }
        GroupDone(sections, k, i, n == 0, mem, offset);
        k := k + 1;
      }
      AllDone(sections, mem, offset);
      size := if mem == 0 then PageUp(offset) else 0;
    }

    /** The copying loop: afterwards the memory at every section's address holds that section's bytes. */
    method CopyOut(memory: array<byte>, base: nat)
      requires AllOk(sections) && AllInside(sections, Visits(sections, 0, 1, true), base, base + memory.Length)
      requires AllApart(sections, Visits(sections, 0, 1, true))
      modifies memory
      ensures AllHold(memory[..], base, sections, Visits(sections, 0, 1, true))
      ensures RestSame(old(memory[..]), memory[..], base, sections, Visits(sections, 0, 1, true))
    {
      hide RestSame, Contents, AlignOk, Inside, Visits, AllInside, AllApart, AllHold, Distinct;
      ghost var all := Visits(sections, 0, 1, true);
      ghost var done: seq<Visit> := [];
      VisitsInRange(sections, 0, 1, true);
      VisitsDistinct(sections, 0, 1, true);
      ghost var start := memory[..];
      NothingHeld(memory[..], base, sections);
      assert [] + all == all;
      var k := 0;
      while k < 3
        invariant k <= 3 && done + Visits(sections, k, 1, true) == all && AllHold(memory[..], base, sections, done)
        invariant RestSame(start, memory[..], base, sections, done)
        modifies memory
      {
        var i := 1;
        var first := true;
        while i < |sections|
          invariant 1 <= i && done + Visits(sections, k, i, first) == all && AllHold(memory[..], base, sections, done)
          invariant RestSame(start, memory[..], base, sections, done)
          modifies memory
          decreases |sections| - i
        {
          VisitsUnfold(sections, k, i, first);
          if sections[i].kind == GROUPS[k] {
            ghost var v := Visit(i, k, first);
            ghost var rest := Visits(sections, k, i + 1, false);
            TurnInside(sections, all, done, v, rest, base, base + memory.Length);
            ghost var before := memory[..];
            CopyOne(memory, base, sections[i]);
            CopyStep(start, before, memory[..], base, sections, all, done, v, rest);
            done := done + [v];
            first := false;
          }
          i := i + 1;
        }
        VisitsUnfold(sections, k, i, first);
        k := k + 1;
      }
      VisitsUnfold(sections, 3, 1, true);
      assert done == all;
    }

    /** The second half of a relocation: the pass at the real address, then the copying; `start` is what the sizing pass began with. */
    method PlaceAt(ptr: nat, memory: array<byte>, ghost start: seq<Section>)
      requires AllOk(start) && Pass(start, 0).ok && sections == Pass(start, 0).sections && AllOk(sections)
      requires ptr != 0 && Span(start, ptr) <= memory.Length
      modifies this, memory
      ensures AllOk(sections) && StandsIn(start, sections, memory[..Span(start, ptr)], ptr)
      ensures forall k :: Span(start, ptr) <= k < memory.Length ==> memory[k] == old(memory[k])
    {
      hide Pass, AllInside, AllApart, AllHold, RestSame, Visits, PageUp, StandsIn, Contents, AlignOk, Span;
      ghost var visits, span := Visits(start, 0, 1, true), Span(start, ptr);
      SizeSuffices(start, ptr);
      SpanIs(start, ptr);
      PassKeeps(start, 0);
      PassKeeps(sections, ptr);
      ghost var first := sections;
      var ret := LayOut(ptr);
      PassTwice(start, first, sections);
      Widen(sections, visits, ptr, ptr + span, ptr + memory.Length);
      CopyOut(memory, ptr);
      Stand(start, sections, memory[..], ptr, span);
      RestAbove(old(memory[..]), memory[..], ptr, sections, visits, span);
    }

    /** tcc_relocate_at: the linked image in memory that starts at `ptr`; its size, or -1. */
    method RelocateAt(ptr: nat, memory: array<byte>) returns (size: int)
      requires AllOk(sections) && ptr != 0 && Span(sections, ptr) <= memory.Length
      modifies this, memory
      ensures AllOk(sections) && size == ImageSize(old(sections))
      ensures size < 0 ==> memory[..] == old(memory[..])
      ensures size >= 0 ==> StandsIn(old(sections), sections, memory[..Span(old(sections), ptr)], ptr)
      ensures size >= 0 ==> forall k :: Span(old(sections), ptr) <= k < memory.Length ==> memory[k] == old(memory[k])
    {
      hide Pass, StandsIn, PageUp, Span;
      ghost var start := sections;
      size := LayOut(0);
      if size >= 0 {
        PlaceAt(ptr, memory, start);
      }
    }

    /** tcc_relocate: the same in a block of its own, one page longer than the image; `ptr` is where the allocator puts it. */
    method Relocate(ptr: nat) returns (size: int, memory: array<byte>)
      requires AllOk(sections) && ptr != 0
      modifies this
      ensures AllOk(sections) && size == ImageSize(old(sections)) && fresh(memory)
      ensures size >= 0 ==> memory.Length == size + PAGESIZE && StandsIn(old(sections), sections, memory[..], ptr)
    {
      hide Pass, StandsIn, PageUp, Span;
      ghost var start := sections;
      size := LayOut(0);
      memory := new byte[if size < 0 then 0 else size + PAGESIZE](_ => 0);
      if size >= 0 {
        SpanFits(start, ptr);
        PlaceAt(ptr, memory, start);
        StandsWider(start, sections, memory[..], ptr, Span(start, ptr));
      }
    }

    static method CopyOne(memory: array<byte>, base: nat, s: Section)
      requires SectionOk(s) && Inside(s, base, base + memory.Length)
      modifies memory
      ensures memory[..] == old(memory[..s.addr - base]) + Contents(s) + old(memory[s.addr - base + s.length..])
    {
      hide AlignOk;
      var at, j := s.addr - base, 0;
      while j < s.length
        invariant 0 <= j <= s.length
        invariant forall k :: 0 <= k < j ==> memory[at + k] == Contents(s)[k]
        invariant forall k :: 0 <= k < memory.Length && !(at <= k < at + j) ==> memory[k] == old(memory[k])
      {
        memory[at + j] := if s.data.Some? then s.data.value[j] else 0;
        j := j + 1;
      }
    }
  }

  /** The section's bytes stand at its address in a block that starts at `base`. */
  predicate HoldsSection(memory: seq<byte>, base: nat, s: Section) {
    SectionOk(s) && base <= s.addr && s.addr + s.length <= base + |memory|
    && memory[s.addr - base..s.addr - base + s.length] == Contents(s)
  }

  /** What the sizing pass answers. */
  function ImageSize(sections: seq<Section>): int
    requires AllOk(sections)
  {
    if Pass(sections, 0).ok then PageUp(Pass(sections, 0).end) else -1
  }

  /** How far from `ptr` the image reaches: its size, and what is missing to the next page when `ptr` is not at one. */
  function Span(sections: seq<Section>, ptr: nat): nat
    requires AllOk(sections)
  {
    Pad(ptr, PAGESIZE) + PageUp(Pass(sections, 0).end)
  }

  lemma SpanIs(sections: seq<Section>, ptr: nat)
    requires AllOk(sections)
    ensures ptr + Span(sections, ptr) == PageUp(ptr) + PageUp(Pass(sections, 0).end)
    ensures ptr % PAGESIZE == 0 ==> Span(sections, ptr) == PageUp(Pass(sections, 0).end)
  {
    hide Pass;
    PageUpIs(ptr);
  }

  lemma SpanFits(sections: seq<Section>, ptr: nat)
    requires AllOk(sections) && Pass(sections, 0).ok
    ensures Span(sections, ptr) <= ImageSize(sections) + PAGESIZE
  {
    hide Pass;
    PadAligns(ptr, PAGESIZE);
  }

  /** Every section the image is made of is as it came but for its place, and stands whole, aligned and apart from the others. */
  predicate StandsIn(start: seq<Section>, sections: seq<Section>, memory: seq<byte>, base: nat) {
    && |sections| == |start|
    && (forall i :: 1 <= i < |sections| && start[i].kind != Other ==>
          SameButPlace(start[i], sections[i]) && HoldsSection(memory, base, sections[i])
          && sections[i].align > 0 && sections[i].addr % sections[i].align == 0)
    && forall i, j {:trigger ApartFrom(sections[i], sections[j])} ::
         1 <= i < |sections| && 1 <= j < |sections| && i != j && start[i].kind != Other && start[j].kind != Other ==>
           ApartFrom(sections[i], sections[j])
  }

  lemma StandsWider(start: seq<Section>, sections: seq<Section>, memory: seq<byte>, base: nat, n: nat)
    requires n <= |memory| && StandsIn(start, sections, memory[..n], base)
    ensures StandsIn(start, sections, memory, base)
  {
    hide Contents, SectionOk, ApartFrom;
    forall i | 1 <= i < |sections| && start[i].kind != Other ensures HoldsSection(memory, base, sections[i]) {
      var s := sections[i];
      assert HoldsSection(memory[..n], base, s);
      assert memory[s.addr - base..s.addr - base + s.length] == memory[..n][s.addr - base..s.addr - base + s.length];
    }
  }

  /** One pass changes places only. */
  lemma PassKeeps(sections: seq<Section>, mem: nat)
    requires AllOk(sections)
    ensures var after := Pass(sections, mem).sections;
            |after| == |sections| && AllOk(after) && forall i :: 0 <= i < |sections| ==> SameButPlace(sections[i], after[i])
  {
    hide AlignOk, Contents, Pad;
    VisitsInRange(sections, 0, 1, true);
    VisitsDistinct(sections, 0, 1, true);
    LayKeeps(sections, Visits(sections, 0, 1, true), mem, 0);
  }

  lemma PassTwice(a: seq<Section>, b: seq<Section>, c: seq<Section>)
    requires |a| == |b| == |c| && forall i :: 0 <= i < |a| ==> SameButPlace(a[i], b[i])
    requires forall i :: 0 <= i < |a| ==> SameButPlace(b[i], c[i])
    ensures forall i :: 0 <= i < |a| ==> SameButPlace(a[i], c[i])
    ensures Visits(c, 0, 1, true) == Visits(a, 0, 1, true)
  {
    hide Visits;
    forall i | 0 <= i < |a| ensures SameButPlace(a[i], c[i]) {
      assert SameButPlace(a[i], b[i]) && SameButPlace(b[i], c[i]);
    }
    forall i | 0 <= i < |a| ensures a[i].kind == c[i].kind {
      assert SameButPlace(a[i], c[i]);
    }
    VisitsSame(a, c, 0, 1, true);
  }

  /** The turns reach every section of the image. */
  lemma Stand(start: seq<Section>, sections: seq<Section>, memory: seq<byte>, base: nat, n: nat)
    requires AllOk(sections) && |sections| == |start| && n <= |memory|
    requires forall i :: 0 <= i < |start| ==> SameButPlace(start[i], sections[i])
    requires var visits := Visits(start, 0, 1, true);
             Visits(sections, 0, 1, true) == visits && AllHold(memory, base, sections, visits) && AllApart(sections, visits)
             && AllInside(sections, visits, base, base + n)
    ensures StandsIn(start, sections, memory[..n], base)
  {
    hide Visits, Contents, SectionOk, ApartFrom;
    var visits := Visits(start, 0, 1, true);
    forall i | 1 <= i < |start| && start[i].kind != Other ensures exists v :: v in visits && v.index == i {
      VisitsCover(start, 0, 1, true, i);
    }
    forall i | 1 <= i < |start| && start[i].kind != Other
      ensures HoldsSection(memory[..n], base, sections[i]) && sections[i].align > 0 && sections[i].addr % sections[i].align == 0
    {
      var v :| v in visits && v.index == i;
      var s := sections[v.index];
      assert HoldsSection(memory, base, s) && Inside(s, base, base + n);
      assert memory[..n][s.addr - base..s.addr - base + s.length] == memory[s.addr - base..s.addr - base + s.length];
    }
    forall i, j | 1 <= i < |start| && 1 <= j < |start| && i != j && start[i].kind != Other && start[j].kind != Other
      ensures ApartFrom(sections[i], sections[j])
    {
      var v :| v in visits && v.index == i;
      var u :| u in visits && u.index == j;
      assert ApartFrom(sections[v.index], sections[u.index]);
    }
  }

  lemma RestAbove(before: seq<byte>, after: seq<byte>, base: nat, sections: seq<Section>, visits: seq<Visit>, n: nat)
    requires RestSame(before, after, base, sections, visits) && AllInside(sections, visits, base, base + n)
    ensures forall k :: n <= k < |before| ==> after[k] == before[k]
  {
  }

  predicate AllHold(memory: seq<byte>, base: nat, sections: seq<Section>, visits: seq<Visit>) {
    forall v {:trigger v.index} :: v in visits && v.index < |sections| ==> HoldsSection(memory, base, sections[v.index])
  }

  /** One section more: it holds its bytes, the earlier ones keep theirs, the rest is untouched. */
  lemma CopyStep(start: seq<byte>, before: seq<byte>, after: seq<byte>, base: nat, sections: seq<Section>, all: seq<Visit>,
                 done: seq<Visit>, v: Visit, rest: seq<Visit>)
    requires AllOk(sections) && AllApart(sections, all) && AllHold(before, base, sections, done)
    requires RestSame(start, before, base, sections, done)
    requires Distinct(all) && all == done + ([v] + rest) && forall u :: u in all ==> u.index < |sections|
    requires v.index < |sections| && Inside(sections[v.index], base, base + |before|)
    requires var s := sections[v.index];
             after == before[..s.addr - base] + Contents(s) + before[s.addr - base + s.length..]
    ensures AllHold(after, base, sections, done + [v]) && RestSame(start, after, base, sections, done + [v])
    ensures (done + [v]) + rest == all
  {
    hide AllHold, RestSame, AllApart, Distinct, Contents, AlignOk;
    HoldKept(before, after, base, sections, all, done, v, rest);
    RestKept(start, before, after, base, sections, done, v);
    assert (done + [v]) + rest == done + ([v] + rest);
  }

  /** The address belongs to one of the visited sections. */
  predicate Taken(sections: seq<Section>, visits: seq<Visit>, addr: nat) {
    exists v :: v in visits && v.index < |sections|
                && sections[v.index].addr <= addr < sections[v.index].addr + sections[v.index].length
  }

  /** Memory between the sections is left alone. */
  predicate RestSame(start: seq<byte>, memory: seq<byte>, base: nat, sections: seq<Section>, visits: seq<Visit>) {
    |memory| == |start| && forall k :: 0 <= k < |start| && !Taken(sections, visits, base + k) ==> memory[k] == start[k]
  }

  lemma RestKept(start: seq<byte>, before: seq<byte>, after: seq<byte>, base: nat, sections: seq<Section>, done: seq<Visit>,
                 v: Visit)
    requires RestSame(start, before, base, sections, done) && v.index < |sections| && SectionOk(sections[v.index])
    requires Inside(sections[v.index], base, base + |before|)
    requires var s := sections[v.index];
             after == before[..s.addr - base] + Contents(s) + before[s.addr - base + s.length..]
    ensures RestSame(start, after, base, sections, done + [v])
  {
    hide Contents, AlignOk;
    forall k | 0 <= k < |start| && !Taken(sections, done + [v], base + k) ensures after[k] == start[k] {
      assert v in done + [v];
      TakenMore(sections, done, v, base + k);
    }
  }

  lemma TakenMore(sections: seq<Section>, done: seq<Visit>, v: Visit, addr: nat)
    ensures Taken(sections, done, addr) ==> Taken(sections, done + [v], addr)
  {
    if Taken(sections, done, addr) {
      var u :| u in done && u.index < |sections|
               && sections[u.index].addr <= addr < sections[u.index].addr + sections[u.index].length;
      assert u in done + [v];
    }
  }

  lemma NothingHeld(memory: seq<byte>, base: nat, sections: seq<Section>)
    ensures AllHold(memory, base, sections, []) && RestSame(memory, memory, base, sections, [])
  {
  }

  lemma TurnInside(sections: seq<Section>, all: seq<Visit>, done: seq<Visit>, v: Visit, rest: seq<Visit>, low: nat, high: nat)
    requires all == done + ([v] + rest) && v.index < |sections| && AllInside(sections, all, low, high)
    ensures Inside(sections[v.index], low, high)
  {
    assert all[|done|] == v;
    assert v in all;
  }

  lemma HoldKept(before: seq<byte>, after: seq<byte>, base: nat, sections: seq<Section>, all: seq<Visit>, done: seq<Visit>,
                 v: Visit, rest: seq<Visit>)
    requires AllOk(sections) && AllApart(sections, all) && AllHold(before, base, sections, done)
    requires Distinct(all) && all == done + ([v] + rest) && forall u :: u in all ==> u.index < |sections|
    requires Inside(sections[v.index], base, base + |before|)
    requires var s := sections[v.index];
             after == before[..s.addr - base] + Contents(s) + before[s.addr - base + s.length..]
    ensures AllHold(after, base, sections, done + [v])
  {
    hide Contents, AlignOk;
    var s := sections[v.index];
    assert all[|done|] == v;
    forall u | u in done + [v] && u.index < |sections| ensures HoldsSection(after, base, sections[u.index]) {
      if u in done {
        var b :| 0 <= b < |done| && done[b] == u;
        assert all[b] == u && u in all && v in all;
        assert ApartFrom(sections[u.index], s);
        var t := sections[u.index];
        assert after[t.addr - base..t.addr - base + t.length] == before[t.addr - base..t.addr - base + t.length];
      } else {
        assert after[s.addr - base..s.addr - base + s.length] == Contents(s);
      }
    }
  }

  lemma VisitsUnfold(sections: seq<Section>, k: nat, i: nat, first: bool)
    ensures k >= 3 ==> Visits(sections, k, i, first) == []
    ensures k < 3 && i >= |sections| ==> Visits(sections, k, i, first) == Visits(sections, k + 1, 1, true)
    ensures k < 3 && i < |sections| ==>
              Visits(sections, k, i, first) == if sections[i].kind == GROUPS[k]
                                               then [Visit(i, k, first)] + Visits(sections, k, i + 1, false)
                                               else Visits(sections, k, i + 1, first)
  {
  }

  /** The pass from group `k` and section `i` on. */
  function LeftToDo(sections: seq<Section>, k: nat, i: nat, first: bool, mem: nat, offset: nat): Laid
    requires AllOk(sections)
  {
    VisitsInRange(sections, k, i, first);
    Lay(sections, Visits(sections, k, i, first), mem, offset)
  }

  lemma EffectiveIs(align: nat, v: Visit, chosen: nat)
    requires chosen == if !v.first then align else if v.group == 0 then PAGESIZE else if align < 64 then 64 else align
    requires AlignOk(align)
    ensures Effective(align, v) == chosen && AlignOk(chosen)
  {
  }

  lemma TurnDone(sections: seq<Section>, k: nat, i: nat, first: bool, mem: nat, offset: nat)
    requires AllOk(sections) && k < 3 && i < |sections| && sections[i].kind == GROUPS[k]
    ensures var s, v := sections[i], Visit(i, k, first);
            LeftToDo(sections, k, i, first, mem, offset) == (
              if s.tls && s.length > 0 then Laid(sections, offset, false)
              else LeftToDo(sections[i := Placed(s, v, mem, offset)], k, i + 1, false, mem, After(s, v, mem, offset)))
  {
    hide Placed, After, SectionOk, Contents;
    var v := Visit(i, k, first);
    var s := sections[i];
    VisitsUnfold(sections, k, i, first);
    VisitsInRange(sections, k, i, first);
    var rest := Visits(sections, k, i + 1, false);
    assert Visits(sections, k, i, first)[0] == v && Visits(sections, k, i, first)[1..] == rest;
    VisitsSame(sections, sections[i := Placed(s, v, mem, offset)], k, i + 1, false);
  }

  lemma NoTurn(sections: seq<Section>, k: nat, i: nat, first: bool, mem: nat, offset: nat)
    requires AllOk(sections) && k < 3 && i < |sections| && sections[i].kind != GROUPS[k]
    ensures LeftToDo(sections, k, i, first, mem, offset) == LeftToDo(sections, k, i + 1, first, mem, offset)
  {
    VisitsUnfold(sections, k, i, first);
  }

  lemma GroupDone(sections: seq<Section>, k: nat, i: nat, first: bool, mem: nat, offset: nat)
    requires AllOk(sections) && k < 3 && i >= |sections|
    ensures LeftToDo(sections, k, i, first, mem, offset) == LeftToDo(sections, k + 1, 1, true, mem, offset)
  {
    VisitsUnfold(sections, k, i, first);
  }

  lemma AllDone(sections: seq<Section>, mem: nat, offset: nat)
    requires AllOk(sections)
    ensures LeftToDo(sections, 3, 1, true, mem, offset) == Laid(sections, offset, true)
  {
    VisitsUnfold(sections, 3, 1, true);
  }
}
