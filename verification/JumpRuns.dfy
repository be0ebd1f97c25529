/** Runs of the jump generator: gjmp, gjmp_cond, gjmp_append, gsym_addr and gjmp_addr over one code section. */
module JumpRuns {
  import opened Bytes
  import opened JumpLists
  import opened Options

  /** The unresolved lists by their heads, and for each patched operand the address it was patched to. */
  datatype Jumps = Jumps(lists: map<nat, seq<nat>>, done: map<nat, int>)

  /** One list: non-empty, named by its head, threaded through its operands, all below `ind`. */
  predicate ListOk(data: seq<byte>, ind: nat, h: nat, list: seq<nat>) {
    list != [] && list[0] == h && IsList(data, list) && AllSpaced(list) && forall i :: 0 <= i < |list| ==> list[i] + 4 <= ind
  }

  predicate Apart(a: seq<nat>, b: seq<nat>) {
    forall i, j {:trigger Spaced(a[i], b[j])} :: 0 <= i < |a| && 0 <= j < |b| ==> Spaced(a[i], b[j])
  }

  predicate DoneOk(data: seq<byte>, ind: nat, p: nat, a: int) {
    p + 4 <= ind && p + 4 <= |data| && Lands(data, p) == a % TWO32
  }

  /** No operand is in two lists, or in a list and patched, or overlaps another. */
  predicate Ok(data: seq<byte>, ind: nat, js: Jumps) {
    && ind <= |data| < 0x8000_0000
    && (forall h :: h in js.lists ==> ListOk(data, ind, h, js.lists[h]))
    && (forall p :: p in js.done ==> DoneOk(data, ind, p, js.done[p]))
    && (forall g, h {:trigger Apart(js.lists[g], js.lists[h])} :: g in js.lists && h in js.lists && g != h ==>
                                                                    Apart(js.lists[g], js.lists[h]))
    && (forall p, h {:trigger Avoids(js.lists[h], p)} :: p in js.done && h in js.lists ==> Avoids(js.lists[h], p))
    && (forall p, q {:trigger Spaced(p, q)} :: p in js.done && q in js.done && p != q ==> Spaced(p, q))
  }

  /** The list a head names: zero is the empty list. */
  function ListOf(js: Jumps, t: nat): seq<nat>
    requires t == 0 || t in js.lists
  {
    if t == 0 then [] else js.lists[t]
  }

  function WithJump(js: Jumps, t: nat, at: nat): Jumps
    requires t == 0 || t in js.lists
  {
    js.(lists := (js.lists - {t})[at := [at] + ListOf(js, t)])
  }

  function WithAppended(js: Jumps, n: nat, t: nat): Jumps
    requires (n == 0 || n in js.lists) && (t == 0 || t in js.lists)
  {
    if n == 0 then js else js.(lists := (js.lists - {t})[n := ListOf(js, n) + ListOf(js, t)])
  }

  function WithResolved(js: Jumps, t: nat, a: int): Jumps
    requires t == 0 || t in js.lists
  {
    js.(lists := js.lists - {t}, done := js.done + map p | p in ListOf(js, t) :: a)
  }

  /** The operand is in this list. */
  predicate In(js: Jumps, h: nat, p: nat) {
    h in js.lists && p in js.lists[h]
  }

  /** Every operand ever emitted, whether still waiting or patched. */
  ghost predicate Emitted(js: Jumps, p: nat) {
    p in js.done || exists h :: In(js, h, p)
  }

  /** The code below `ind` is untouched. */
  predicate SameBelow(data: seq<byte>, after: seq<byte>, ind: nat) {
    ind <= |data| && ind <= |after| && forall i :: 0 <= i < ind ==> after[i] == data[i]
  }

  lemma SameWord(data: seq<byte>, after: seq<byte>, ind: nat, p: nat)
    requires SameBelow(data, after, ind) && p + 4 <= ind
    ensures ReadLe32(after, p) == ReadLe32(data, p)
  {
  }

  lemma ListOkKept(data: seq<byte>, after: seq<byte>, ind: nat, ind2: nat, h: nat, list: seq<nat>)
    requires ListOk(data, ind, h, list) && SameBelow(data, after, ind) && ind <= ind2 && |data| <= |after|
    ensures ListOk(after, ind2, h, list)
  {
    hide ReadLe32, IsList, SameBelow;
    forall i | 0 <= i < |list| && list[i] + 4 <= |data|
      ensures ReadLe32(after, list[i]) == ReadLe32(data, list[i])
    {
      SameWord(data, after, ind, list[i]);
    }
    ListKept(data, after, list);
  }

  /** Emitting code at `ind` leaves every list and every patched jump alone. */
  lemma EmitKeeps(data: seq<byte>, after: seq<byte>, ind: nat, ind2: nat, js: Jumps)
    requires Ok(data, ind, js) && SameBelow(data, after, ind) && ind <= ind2 <= |after| && |data| <= |after| < 0x8000_0000
    ensures Ok(after, ind2, js)
  {
    hide ListOk, SameBelow, Apart, Avoids, ReadLe32;
    forall h | h in js.lists ensures ListOk(after, ind2, h, js.lists[h]) {
      ListOkKept(data, after, ind, ind2, h, js.lists[h]);
    }
    forall p | p in js.done ensures DoneOk(after, ind2, p, js.done[p]) {
      SameWord(data, after, ind, p);
    }
  }

  lemma FreshAvoids(data: seq<byte>, ind: nat, h: nat, list: seq<nat>, at: nat)
    requires ListOk(data, ind, h, list) && at >= ind
    ensures Avoids(list, at) && Apart(list, [at]) && Apart([at], list)
  {
  }

  lemma ApartSym(a: seq<nat>, b: seq<nat>)
    requires Apart(a, b)
    ensures Apart(b, a)
  {
    forall i, j | 0 <= i < |b| && 0 <= j < |a| ensures Spaced(b[i], a[j]) {
      assert Spaced(a[j], b[i]);
    }
  }

  lemma ApartJoin(a: seq<nat>, b: seq<nat>, c: seq<nat>)
    requires Apart(a, c) && Apart(b, c)
    ensures Apart(a + b, c) && Apart(c, a + b)
  {
    forall i, j | 0 <= i < |a + b| && 0 <= j < |c| ensures Spaced((a + b)[i], c[j]) && Spaced(c[j], (a + b)[i]) {
      if i < |a| {
        assert Spaced(a[i], c[j]);
      } else {
        assert Spaced(b[i - |a|], c[j]);
      }
    }
  }

  lemma SpacedJoin(a: seq<nat>, b: seq<nat>)
    requires AllSpaced(a) && AllSpaced(b) && Apart(a, b)
    ensures AllSpaced(a + b)
  {
    forall i, j | 0 <= i < j < |a + b| ensures Spaced((a + b)[i], (a + b)[j]) {
      if j < |a| {
        assert Spaced(a[i], a[j]);
      } else if i < |a| {
        assert Spaced(a[i], b[j - |a|]);
      } else {
        assert Spaced(b[i - |a|], b[j - |a|]);
      }
    }
  }

  lemma AvoidsJoin(a: seq<nat>, b: seq<nat>, p: nat)
    requires Avoids(a, p) && Avoids(b, p)
    ensures Avoids(a + b, p)
  {
    forall i | 0 <= i < |a + b| ensures Spaced(p, (a + b)[i]) {
      if i >= |a| {
        assert Spaced(p, b[i - |a|]);
      }
    }
  }

  /** Two lists become one: everything but the threading of the new list. */
  lemma JoinedShape(js: Jumps, data: seq<byte>, ind: nat, h: nat, a: seq<nat>, t: nat)
    requires Ok(data, ind, js) && (t == 0 || t in js.lists) && a != [] && a[0] == h
    requires AllSpaced(a) && Apart(a, ListOf(js, t)) && (forall i :: 0 <= i < |a| ==> a[i] + 4 <= ind)
    requires h != t && forall g :: g in js.lists && g != h && g != t ==> Apart(a, js.lists[g])
    requires forall p :: p in js.done ==> Avoids(a, p)
    requires IsList(data, a + ListOf(js, t))
    ensures Ok(data, ind, js.(lists := (js.lists - {t})[h := a + ListOf(js, t)]))
  {
    hide IsList, DoneOk, Avoids, Apart, AllSpaced;
    var b := ListOf(js, t);
    var list := a + b;
    var lists := (js.lists - {t})[h := list];
    assert AllSpaced(b) by {
      if t == 0 { ShortSpaced(); }
    }
    SpacedJoin(a, b);
    assert ListOk(data, ind, h, list);
    forall g | g in lists && g != h ensures Apart(list, lists[g]) && Apart(lists[g], list) {
      if t == 0 { EmptyApart(js.lists[g]); } else { assert Apart(js.lists[t], js.lists[g]); }
      ApartJoin(a, b, js.lists[g]);
    }
    forall p | p in js.done ensures Avoids(list, p) {
      if t == 0 { EmptyApart([p]); } else { assert Avoids(js.lists[t], p); }
      AvoidsEmpty(p);
      AvoidsJoin(a, b, p);
    }
  }

  lemma ShortSpaced()
    ensures AllSpaced([])
  {
  }

  lemma EmptyApart(list: seq<nat>)
    ensures Apart([], list)
  {
  }

  lemma AvoidsEmpty(p: nat)
    ensures Avoids([], p)
  {
  }

  /** A new jump in front of a list. */
  lemma JumpKeeps(data: seq<byte>, ind: nat, js: Jumps, t: nat, at: nat)
    requires Ok(data, at, js) && (t == 0 || t in js.lists) && 0 < at && at + 4 <= ind <= |data| && ReadLe32(data, at) == t
    ensures Ok(data, ind, WithJump(js, t, at))
  {
    hide ReadLe32, IsList, Lands, Apart, Avoids;
    assert SameBelow(data, data, at);
    EmitKeeps(data, data, at, ind, js);
    forall h | h in js.lists ensures Apart([at], js.lists[h]) && js.lists[h][0] < at {
      FreshAvoids(data, at, h, js.lists[h], at);
    }
    forall p | p in js.done ensures Avoids([at], p) {
      AvoidsOne(p, at);
    }
    assert at != t by {
      if t != 0 { assert js.lists[t][0] == t; }
    }
    if t == 0 { EmptyApart([at]); ApartSym([], [at]); }
    OneSpaced(at);
    assert IsList(data, [at] + ListOf(js, t)) by {
      ListCons(data, at, ListOf(js, t));
    }
    JoinedShape(js, data, ind, at, [at], t);
  }

  lemma AvoidsOne(p: nat, at: nat)
    requires p + 4 <= at
    ensures Avoids([at], p)
  {
  }

  lemma OneSpaced(at: nat)
    ensures AllSpaced([at])
  {
  }

  lemma ListCons(data: seq<byte>, at: nat, list: seq<nat>)
    requires 0 < at && at + 4 <= |data| && ReadLe32(data, at) == Head(list) && IsList(data, list)
    ensures IsList(data, [at] + list)
  {
    assert ([at] + list)[1..] == list;
  }

  /** The last operand of the first list is redirected to the second. */
  lemma AppendKeeps(data: seq<byte>, ind: nat, js: Jumps, n: nat, t: nat)
    requires Ok(data, ind, js) && n in js.lists && (t == 0 || t in js.lists) && n != t
    ensures var last := js.lists[n][|js.lists[n]| - 1];
            last + 4 <= |data| && t < TWO32 && Ok(Put32(data, last, t), ind, WithAppended(js, n, t))
  {
    hide ReadLe32, IsList, Lands, Apart, Avoids, Put32, AllSpaced;
    var first, second := js.lists[n], ListOf(js, t);
    var last := first[|first| - 1];
    if t == 0 { EmptyApart(first); ApartSym([], first); ShortSpaced(); EmptyList(data); }
    else { assert Apart(js.lists[n], js.lists[t]); ListBounds(data, second, 0); }
    SpacedJoin(first, second);
    var after := Put32(data, last, t);
    Appended(data, first, second);
    var others := js.(lists := js.lists - {n, t});
    OthersKept(data, after, ind, others, last, t) by {
      forall h | h in others.lists ensures Avoids(js.lists[h], last) {
        assert Apart(js.lists[n], js.lists[h]);
        LastAvoids(first, js.lists[h]);
      }
      forall p | p in js.done ensures Spaced(p, last) {
        assert Avoids(js.lists[n], p);
        LastSpaced(first, p);
      }
    }
    assert ListOk(after, ind, n, first + second);
    Rejoined(after, ind, js, n, t);
  }

  lemma EmptyList(data: seq<byte>)
    ensures IsList(data, [])
  {
  }

  lemma LastAvoids(a: seq<nat>, b: seq<nat>)
    requires a != [] && Apart(a, b)
    ensures Avoids(b, a[|a| - 1])
  {
  }

  lemma LastSpaced(a: seq<nat>, p: nat)
    requires a != [] && Avoids(a, p)
    ensures Spaced(p, a[|a| - 1])
  {
  }

  /** A word written where no list and no patched jump is. */
  lemma OthersKept(data: seq<byte>, after: seq<byte>, ind: nat, js: Jumps, at: nat, x: u32)
    requires Ok(data, ind, js) && at + 4 <= |data| && after == Put32(data, at, x)
    requires (forall h :: h in js.lists ==> Avoids(js.lists[h], at)) && (forall p :: p in js.done ==> Spaced(p, at))
    ensures Ok(after, ind, js)
  {
    hide ReadLe32, IsList, Apart, Put32, AllSpaced;
    forall h | h in js.lists ensures ListOk(after, ind, h, js.lists[h]) {
      var list := js.lists[h];
      forall i | 0 <= i < |list| && list[i] + 4 <= |data| ensures ReadLe32(after, list[i]) == ReadLe32(data, list[i]) {
        assert Spaced(at, list[i]);
        Put32Elsewhere(data, at, x, list[i]);
      }
      ListKept(data, after, list);
    }
    forall p | p in js.done ensures DoneOk(after, ind, p, js.done[p]) {
      Put32Elsewhere(data, at, x, p);
    }
  }

  /** The joined list back among the others. */
  lemma Rejoined(data: seq<byte>, ind: nat, js: Jumps, n: nat, t: nat)
    requires n in js.lists && (t == 0 || t in js.lists) && n != t
    requires Ok(data, ind, js.(lists := js.lists - {n, t}))
    requires ListOk(data, ind, n, js.lists[n] + ListOf(js, t))
    requires forall g, h {:trigger Apart(js.lists[g], js.lists[h])} :: g in js.lists && h in js.lists && g != h ==>
                                                                          Apart(js.lists[g], js.lists[h])
    requires forall p, h {:trigger Avoids(js.lists[h], p)} :: p in js.done && h in js.lists ==> Avoids(js.lists[h], p)
    ensures Ok(data, ind, WithAppended(js, n, t))
  {
    hide ListOk, DoneOk, Apart, Avoids;
    EmptyListHead(data, ind, js, n, t);
    var a, b := js.lists[n], ListOf(js, t);
    var after := WithAppended(js, n, t);
    forall g | g in after.lists && g != n ensures Apart(a + b, after.lists[g]) && Apart(after.lists[g], a + b) {
      assert Apart(js.lists[n], js.lists[g]);
      if t == 0 { EmptyApart(js.lists[g]); } else { assert Apart(js.lists[t], js.lists[g]); }
      ApartJoin(a, b, js.lists[g]);
    }
    forall g, h | g in after.lists && h in after.lists && g != h ensures Apart(after.lists[g], after.lists[h]) {
      if g != n && h != n { assert Apart(js.lists[g], js.lists[h]); }
    }
    forall p | p in js.done ensures Avoids(a + b, p) {
      assert Avoids(js.lists[n], p);
      if t == 0 { AvoidsEmpty(p); } else { assert Avoids(js.lists[t], p); }
      AvoidsJoin(a, b, p);
    }
    var others := js.(lists := js.lists - {n, t});
    forall h | h in after.lists ensures ListOk(data, ind, h, after.lists[h]) {
      if h != n { assert h in others.lists && others.lists[h] == after.lists[h]; }
    }
  }

  lemma EmptyListHead(data: seq<byte>, ind: nat, js: Jumps, n: nat, t: nat)
    requires n in js.lists && (t == 0 || t in js.lists) && ListOk(data, ind, n, js.lists[n] + ListOf(js, t))
    ensures n != 0
  {
    ListBounds(data, js.lists[n] + ListOf(js, t), 0);
  }

  /** A whole list patched. */
  lemma ResolveKeeps(data: seq<byte>, ind: nat, js: Jumps, t: nat, a: int)
    requires Ok(data, ind, js) && t in js.lists
    ensures (forall i :: 0 <= i < |js.lists[t]| ==> js.lists[t][i] + 4 <= |data|)
            && Ok(Patched(data, js.lists[t], a), ind, WithResolved(js, t, a))
  {
    hide ReadLe32, IsList, Apart, Avoids, AllSpaced, Lands;
    var list := js.lists[t];
    assert ListOk(data, ind, t, list);
    ListBounds(data, list, 0);
    var after, left := Patched(data, list, a), WithResolved(js, t, a);
    PatchedLands(data, list, a);
    forall h | h in left.lists ensures ListOk(after, ind, h, left.lists[h]) {
      var other := js.lists[h];
      assert Apart(js.lists[h], js.lists[t]);
      forall i | 0 <= i < |other| && other[i] + 4 <= |data| ensures ReadLe32(after, other[i]) == ReadLe32(data, other[i]) {
        ApartAvoids(other, list, i);
      }
      ListKept(data, after, other);
    }
    forall p | p in left.done ensures DoneOk(after, ind, p, left.done[p]) {
      if p in list {
        var i :| 0 <= i < |list| && list[i] == p;
      } else {
        assert Avoids(js.lists[t], p);
        LandsSame(data, after, p);
      }
    }
    forall p, h | p in left.done && h in left.lists ensures Avoids(left.lists[h], p) {
      if p in list {
        assert Apart(js.lists[t], js.lists[h]);
        var i :| 0 <= i < |list| && list[i] == p;
        ApartAvoids(list, js.lists[h], i);
      } else {
        assert Avoids(js.lists[h], p);
      }
    }
    forall p, q | p in left.done && q in left.done && p != q ensures Spaced(p, q) {
      DoneSpaced(list, js, p, q, t);
    }
  }

  lemma DoneSpaced(list: seq<nat>, js: Jumps, p: nat, q: nat, t: nat)
    requires AllSpaced(list) && p != q && (p in list || p in js.done) && (q in list || q in js.done)
    requires forall r :: r in js.done ==> Avoids(list, r)
    requires forall r, s {:trigger Spaced(r, s)} :: r in js.done && s in js.done && r != s ==> Spaced(r, s)
    ensures Spaced(p, q)
  {
    if p in list && q in list {
      var i :| 0 <= i < |list| && list[i] == p;
      var j :| 0 <= j < |list| && list[j] == q;
      assert if i < j then Spaced(list[i], list[j]) else Spaced(list[j], list[i]);
    } else if p in list {
      var i :| 0 <= i < |list| && list[i] == p;
      assert Spaced(q, list[i]);
    } else if q in list {
      var i :| 0 <= i < |list| && list[i] == q;
      assert Spaced(p, list[i]);
    }
  }

  lemma ApartAvoids(a: seq<nat>, b: seq<nat>, i: nat)
    requires Apart(a, b) && i < |a|
    ensures Avoids(b, a[i])
  {
  }

  lemma LandsSame(data: seq<byte>, after: seq<byte>, p: nat)
    requires p + 4 <= |data| && p + 4 <= |after| && ReadLe32(after, p) == ReadLe32(data, p)
    ensures Lands(after, p) == Lands(data, p)
  {
  }

  // ---------------------------------------------------------------- each jump once

  lemma ApartDisjoint(a: seq<nat>, b: seq<nat>, p: nat)
    requires Apart(a, b)
    ensures p !in a || p !in b
  {
    forall i, j | 0 <= i < |a| && 0 <= j < |b| ensures a[i] != b[j] {
      assert Spaced(a[i], b[j]);
    }
  }

  /** An emitted jump waits in exactly one list or has been patched, never both. */
  lemma EachJumpOnce(data: seq<byte>, ind: nat, js: Jumps, p: nat)
    requires Ok(data, ind, js)
    ensures forall g, h :: In(js, g, p) && In(js, h, p) ==> g == h
    ensures forall h :: In(js, h, p) ==> p !in js.done
  {
    hide ListOk, DoneOk, Apart, Spaced;
    forall g, h | In(js, g, p) && h in js.lists && g != h ensures !In(js, h, p) {
      assert Apart(js.lists[g], js.lists[h]);
      ApartDisjoint(js.lists[g], js.lists[h], p);
    }
    forall h | In(js, h, p) ensures p !in js.done {
      forall q | q in js.done ensures q !in js.lists[h] {
        assert Avoids(js.lists[h], q);
        AvoidsMeansNotIn(js.lists[h], q);
      }
    }
  }

  lemma AvoidsMeansNotIn(list: seq<nat>, q: nat)
    requires Avoids(list, q)
    ensures q !in list
  {
    forall i | 0 <= i < |list| ensures list[i] != q {
      assert Spaced(q, list[i]);
    }
  }

  /** A jump enters by being emitted. */
  lemma EmittedByJump(js: Jumps, t: nat, at: nat, p: nat)
    requires (t == 0 || t in js.lists) && at !in js.lists && 0 !in js.lists
    ensures Emitted(WithJump(js, t, at), p) <==> Emitted(js, p) || p == at
  {
    var after := WithJump(js, t, at);
    forall h | In(js, h, p) ensures Emitted(after, p) {
      assert In(after, if h == t then at else h, p);
    }
    forall h | In(after, h, p) ensures Emitted(js, p) || p == at {
      assert In(js, h, p) || In(js, t, p) || p == at;
    }
    assert In(after, at, at);
  }

  /** Appending loses none and adds none. */
  lemma EmittedByAppend(js: Jumps, n: nat, t: nat, p: nat)
    requires (n == 0 || n in js.lists) && (t == 0 || t in js.lists) && (n != t || n == 0) && 0 !in js.lists
    ensures Emitted(WithAppended(js, n, t), p) <==> Emitted(js, p)
  {
    var after := WithAppended(js, n, t);
    forall h | In(js, h, p) ensures Emitted(after, p) {
      assert In(after, if n != 0 && h == t then n else h, p);
    }
    forall h | In(after, h, p) ensures Emitted(js, p) {
      assert In(js, h, p) || In(js, t, p);
    }
  }

  /** Resolving loses none and adds none; what was patched before keeps its address, the list's own jumps get `a`. */
  lemma EmittedByResolve(data: seq<byte>, ind: nat, js: Jumps, t: nat, a: int, p: nat)
    requires Ok(data, ind, js) && t in js.lists
    ensures Emitted(WithResolved(js, t, a), p) <==> Emitted(js, p)
    ensures p in js.done ==> p in WithResolved(js, t, a).done && WithResolved(js, t, a).done[p] == js.done[p]
    ensures In(js, t, p) ==> p in WithResolved(js, t, a).done && WithResolved(js, t, a).done[p] == a
  {
    hide Ok;
    EachJumpOnce(data, ind, js, p);
    NoZero(data, ind, js);
    var after := WithResolved(js, t, a);
    forall h | In(js, h, p) ensures Emitted(after, p) {
      assert h != t ==> In(after, h, p);
    }
    forall h | In(after, h, p) ensures Emitted(js, p) {
      assert In(js, h, p);
    }
    assert p in js.done ==> !In(js, t, p);
    assert p in ListOf(js, t) ==> In(js, t, p);
  }

  // ---------------------------------------------------------------- code that stands

  /** No operand of the list is among the `n` bytes at `at`. */
  predicate ClearOf(list: seq<nat>, at: nat, n: nat) {
    forall i :: 0 <= i < |list| ==> list[i] + 4 <= at || at + n <= list[i]
  }

  /** These bytes are in the code and no list runs through them. */
  predicate Stands(data: seq<byte>, ind: nat, js: Jumps, at: nat, bytes: seq<byte>) {
    && bytes != [] && at + |bytes| <= ind <= |data| && data[at..at + |bytes|] == bytes
    && forall h :: h in js.lists ==> ClearOf(js.lists[h], at, |bytes|)
  }

  predicate CodeOk(data: seq<byte>, ind: nat, js: Jumps, code: map<nat, seq<byte>>) {
    forall at :: at in code ==> Stands(data, ind, js, at, code[at])
  }

  lemma CodeEmit(data: seq<byte>, after: seq<byte>, ind: nat, ind2: nat, js: Jumps, code: map<nat, seq<byte>>)
    requires CodeOk(data, ind, js, code) && SameBelow(data, after, ind) && ind <= ind2 <= |after|
    ensures CodeOk(after, ind2, js, code)
  {
    hide ClearOf;
    forall at | at in code ensures Stands(after, ind2, js, at, code[at]) {
      assert Stands(data, ind, js, at, code[at]);
      assert after[at..at + |code[at]|] == data[at..at + |code[at]|];
    }
  }

  /** A new jump is behind everything that stands. */
  lemma CodeJump(data: seq<byte>, ind: nat, js: Jumps, t: nat, code: map<nat, seq<byte>>)
    requires (t == 0 || t in js.lists) && CodeOk(data, ind, js, code)
    ensures CodeOk(data, ind, WithJump(js, t, ind), code)
  {
    forall at | at in code ensures Stands(data, ind, WithJump(js, t, ind), at, code[at]) {
      assert Stands(data, ind, js, at, code[at]);
      assert t != 0 ==> ClearOf(js.lists[t], at, |code[at]|);
    }
  }

  lemma CodeAppend(data: seq<byte>, ind: nat, js: Jumps, n: nat, t: nat, code: map<nat, seq<byte>>)
    requires n in js.lists && (t == 0 || t in js.lists) && CodeOk(data, ind, js, code) && js.lists[n] != []
    requires js.lists[n][|js.lists[n]| - 1] + 4 <= |data| && t < TWO32
    ensures CodeOk(Put32(data, js.lists[n][|js.lists[n]| - 1], t), ind, WithAppended(js, n, t), code)
  {
    hide Put32;
    var last := js.lists[n][|js.lists[n]| - 1];
    var after := Put32(data, last, t);
    Put32Reads(data, last, t);
    forall at | at in code ensures Stands(after, ind, WithAppended(js, n, t), at, code[at]) {
      assert Stands(data, ind, js, at, code[at]) && ClearOf(js.lists[n], at, |code[at]|);
      assert after[at..at + |code[at]|] == data[at..at + |code[at]|];
      assert t != 0 ==> ClearOf(js.lists[t], at, |code[at]|);
    }
  }

  lemma CodeResolve(data: seq<byte>, ind: nat, js: Jumps, t: nat, a: int, code: map<nat, seq<byte>>)
    requires t in js.lists && CodeOk(data, ind, js, code) && AllSpaced(js.lists[t])
    requires forall i :: 0 <= i < |js.lists[t]| ==> js.lists[t][i] + 4 <= |data|
    ensures CodeOk(Patched(data, js.lists[t], a), ind, WithResolved(js, t, a), code)
  {
    var list := js.lists[t];
    var after := Patched(data, list, a);
    PatchedLands(data, list, a);
    forall at | at in code ensures Stands(after, ind, WithResolved(js, t, a), at, code[at]) {
      assert Stands(data, ind, js, at, code[at]) && ClearOf(list, at, |code[at]|);
      assert after[at..at + |code[at]|] == data[at..at + |code[at]|];
    }
  }

  /** What was just emitted stands: every list is older. */
  lemma CodeNew(data: seq<byte>, from: nat, ind: nat, js: Jumps, code: map<nat, seq<byte>>)
    requires CodeOk(data, ind, js, code) && from < ind <= |data| && (forall h :: h in js.lists ==> ClearOf(js.lists[h], from, ind - from))
    ensures CodeOk(data, ind, js, code[from := data[from..ind]])
  {
    hide ClearOf;
  }

  lemma ListsBelow(data: seq<byte>, ind: nat, js: Jumps, n: nat)
    requires Ok(data, ind, js)
    ensures forall h :: h in js.lists ==> ClearOf(js.lists[h], ind, n)
  {
    forall h | h in js.lists ensures ClearOf(js.lists[h], ind, n) {
      assert ListOk(data, ind, h, js.lists[h]);
    }
  }

  /** A jump that stands goes where its bytes say, whatever was emitted, appended or resolved since. */
  lemma StandingJumpLands(data: seq<byte>, ind: nat, js: Jumps, code: map<nat, seq<byte>>, at: nat)
    requires CodeOk(data, ind, js, code) && at in code && IsJumpCode(code[at])
    ensures Target(data, at) == TargetOf(code[at], at) && Length(data, at) == |code[at]|
  {
    hide ClearOf;
    var bytes := code[at];
    assert Stands(data, ind, js, at, bytes);
    forall i | 0 <= i < |bytes| ensures data[at + i] == bytes[i] {
      assert data[at..at + |bytes|][i] == bytes[i];
    }
  }

  // ---------------------------------------------------------------- the generator

  class CodeGen {
    /** The text section up to data_allocated, and the position of the next byte. */
    var data: seq<byte>
    var ind: nat
    var noCode: bool
    ghost var jumps: Jumps
    /** The jumps of gjmp_addr and the opcodes of all others, by where they begin: bytes that stay as they are. */
    ghost var code: map<nat, seq<byte>>

    ghost predicate Valid()
      reads this
    {
      Ok(data, ind, jumps) && CodeOk(data, ind, jumps, code)
    }

    constructor ()
      ensures Valid() && ind == 0 && jumps == Jumps(map[], map[]) && code == map[] && !noCode
    {
      data, ind, noCode := [], 0, false;
      jumps := Jumps(map[], map[]);
      code := map[];
    }

    /** g: one byte at `ind`, growing the section when it is full. */
    method G(c: byte)
      requires Valid() && ind + 1 < 0x8000_0000
      modifies this`data, this`ind
      ensures Valid() && SameBelow(old(data), data, old(ind)) && |old(data)| <= |data|
      ensures if noCode then ind == old(ind) && data == old(data)
              else ind == old(ind) + 1 <= |data| && data[old(ind)] == c
    {
      hide ListOk, DoneOk, CodeOk;
      if noCode {
        return;
      }
      ghost var before, at := data, ind;
      if ind + 1 > |data| {
        data := data + [0];
      }
      data := data[ind := c];
      ind := ind + 1;
      EmitKeeps(before, data, at, ind, jumps);
      CodeEmit(before, data, at, ind, jumps, code);
    }

    /** gen_le32. */
    method Le(x: u32)
      requires Valid() && ind + 4 < 0x8000_0000
      modifies this`data, this`ind
      ensures Valid() && SameBelow(old(data), data, old(ind)) && |old(data)| <= |data|
      ensures if noCode then ind == old(ind) && data == old(data)
              else ind == old(ind) + 4 <= |data| && data[old(ind)..ind] == Le32(x)
    {
      hide Ok, CodeOk;
      OkShape(data, ind, jumps);
      G(x % 256);
      G(x / 256 % 256);
      G(x / 256 / 256 % 256);
      G(x / 256 / 256 / 256 % 256);
    }

    /** oad with a one-byte opcode: the operand's position, or `s` itself when no code is wanted. */
    method Oad(c: byte, s: u32) returns (t: nat)
      requires Valid() && ind + 5 < 0x8000_0000 && c != 0
      modifies this`data, this`ind
      ensures Valid() && SameBelow(old(data), data, old(ind)) && |old(data)| <= |data|
      ensures if noCode then t == s && ind == old(ind) && data == old(data)
              else t == old(ind) + 1 && ind == t + 4 <= |data| && data[old(ind)] == c && ReadLe32(data, t) == s
                   && Ok(data, t, jumps) && CodeOk(data, t, jumps, code)
    {
      hide Ok, ReadLe32, CodeOk;
      OkShape(data, ind, jumps);
      if noCode {
        return s;
      }
      G(c);
      t := ind;
      ghost var opcode := data;
      OkShape(data, ind, jumps);
      Le(s);
      OkShape(data, ind, jumps);
      ReadLe32OfLe32(data, t, s);
      assert data[old(ind)] == opcode[old(ind)];
      SamePrefix(opcode, data, t, jumps, ind);
      CodeEmit(opcode, data, t, t, jumps, code);
    }

    /** gjmp and gjmp_cond: a new jump at the head of the list `t`; `cond` is the condition's 0x80 to 0x8f byte. */
    method Jump(cond: Option<byte>, t: nat) returns (head: nat)
      requires Valid() && ind + 6 < 0x8000_0000 && (t == 0 || t in jumps.lists)
      requires cond.Some? ==> 0x80 <= cond.value < 0x90
      modifies this
      ensures Valid() && noCode == old(noCode)
      ensures noCode ==> head == t && data == old(data) && ind == old(ind) && jumps == old(jumps) && code == old(code)
      ensures SameBelow(old(data), data, old(ind))
      ensures !noCode ==> jumps == WithJump(old(jumps), t, head) && IsJumpAt(data, head, cond)
      ensures !noCode ==> ind == head + 4 && head == old(ind) + (if cond.Some? then 2 else 1)
      ensures !noCode ==> old(ind) !in old(code) && code == old(code)[old(ind) := OpcodeOf(cond)]
    {
      hide Ok, ReadLe32, CodeOk, ClearOf;
      ghost var start := ind;
      ListsBelow(data, ind, jumps, if cond.Some? then 2 else 1);
      NothingAtEnd(data, ind, jumps, code);
      HeadInRange(data, ind, jumps, t);
      OkShape(data, ind, jumps);
      var opcode: byte := 0xe9;
      if cond.Some? {
        G(0x0f);
        opcode := cond.value;
      }
      ghost var prefix, at := data, ind;
      OkShape(data, ind, jumps);
      head := Oad(opcode, t);
      if !noCode {
        assert cond.Some? ==> data[at - 1] == prefix[at - 1];
        JumpKeeps(data, ind, jumps, t, head);
        CodeNew(data, start, head, jumps, code);
        OpcodeBytes(data, start, head, cond);
        code := code[start := OpcodeOf(cond)];
        CodeJump(data, head, jumps, t, code);
        jumps := WithJump(jumps, t, head);
        CodeEmit(data, data, head, ind, jumps, code);
      }
    }

    /** gjmp_append: the list of `n` with the list of `t` behind it. */
    method Append(n: nat, t: nat) returns (head: nat)
      requires Valid() && (n == 0 || n in jumps.lists) && (t == 0 || t in jumps.lists) && (n != t || n == 0)
      modifies this`data, this`jumps
      ensures Valid() && jumps == WithAppended(old(jumps), n, t) && |data| == |old(data)|
      ensures head == Head(ListOf(old(jumps), n) + ListOf(old(jumps), t))
      ensures n != 0 ==> head in jumps.lists && jumps.lists[head] == ListOf(old(jumps), n) + ListOf(old(jumps), t)
      ensures IsAppended(old(data), ListOf(old(jumps), n), t, data)
    {
      hide ReadLe32, Put32, Apart, Avoids, AllSpaced, Lands, CodeOk;
      HeadInRange(data, ind, jumps, t);
      if n == 0 {
        return t;
      }
      ghost var list := jumps.lists[n];
      assert ListOk(data, ind, n, list);
      ListBounds(data, list, 0);
      var n1 := n;
      ghost var i := 0;
      var n2 := ReadLe32(data, n1);
      ListNext(data, list, 0);
      while n2 != 0
        invariant 0 <= i < |list| && n1 == list[i] && n1 + 4 <= |data| && n2 == ReadLe32(data, n1)
        invariant n2 == Head(list[i + 1..])
        modifies {}
        decreases |list| - i
      {
        ListNonzero(list, i);
        n1 := n2;
        i := i + 1;
        ListBounds(data, list, i);
        ListNext(data, list, i);
        n2 := ReadLe32(data, n1);
      }
      ListEnds(data, list, i);
      AppendKeeps(data, ind, jumps, n, t);
      CodeAppend(data, ind, jumps, n, t, code);
      data := Put32(data, n1, t);
      jumps := WithAppended(jumps, n, t);
      head := n;
    }

    /** gsym_addr: every jump of the list now lands on `a`. */
    method Resolve(t: nat, a: int)
      requires Valid() && (t == 0 || t in jumps.lists)
      modifies this`data, this`jumps
      ensures Valid() && jumps == WithResolved(old(jumps), t, a)
      ensures IsPatched(old(data), ListOf(old(jumps), t), a, data)
    {
      hide ReadLe32, Put32, Apart, Avoids, Lands, AllSpaced, CodeOk;
      if t == 0 {
        NoZero(data, ind, jumps);
        assert jumps == WithResolved(jumps, t, a);
        return;
      }
      ghost var list := jumps.lists[t];
      ResolveKeeps(data, ind, jumps, t, a);
      CodeResolve(data, ind, jumps, t, a, code);
      ghost var done := Patched(data, list, a);
      assert ListOk(data, ind, t, list);
      var cur := t;
      ghost var rest := list;
      while cur != 0
        invariant cur == Head(rest) && IsList(data, rest) && AllSpaced(rest)
        invariant forall i :: 0 <= i < |rest| ==> rest[i] + 4 <= |data|
        invariant Patched(data, rest, a) == done
        modifies this`data
        decreases |rest|
      {
        var n := ReadLe32(data, cur);
        RestKept(data, rest, Operand(a, cur));
        data := Put32(data, cur, (a - cur - 4) % TWO32);
        cur := n;
        rest := rest[1..];
      }
      EmptyPatched(data, rest, a);
      jumps := WithResolved(jumps, t, a);
    }

    /** gjmp_addr: a short jump when the distance fits in a signed byte, else a long one; both land on `a` and stand from now on. */
    method JumpTo(a: nat)
      requires Valid() && ind + 5 < 0x8000_0000 && a < 0x8000_0000
      modifies this`data, this`ind, this`code
      ensures Valid() && SameBelow(old(data), data, old(ind))
      ensures if noCode then data == old(data) && ind == old(ind) && code == old(code)
              else old(ind) < ind <= |data| && Target(data, old(ind)) == a && Length(data, old(ind)) == ind - old(ind)
                   && old(ind) !in old(code) && code == old(code)[old(ind) := data[old(ind)..ind]]
                   && IsJumpCode(code[old(ind)]) && TargetOf(code[old(ind)], old(ind)) == a
    {
      hide Ok, CodeOk, ClearOf;
      var r := a - ind - 2;
      ghost var before, at := data, ind;
      OkShape(data, ind, jumps);
      ListsBelow(data, ind, jumps, if -128 <= r < 128 then 2 else 5);
      NothingAtEnd(data, ind, jumps, code);
      if -128 <= r < 128 {
        G(0xeb);
        ghost var opcode := data;
        G(r % 256);
        if !noCode {
          assert data[at] == opcode[at];
        }
      } else {
        var _ := Oad(0xe9, (a - ind - 5) % TWO32);
        if !noCode {
          LongLands(data, at, a);
        }
      }
      OkShape(data, ind, jumps);
      if !noCode {
        CodeNew(data, at, ind, jumps, code);
        CodeOfJump(data, at, ind);
        code := code[at := data[at..ind]];
      }
    }
  }

  /** gjmp_append's effect on the code: one operand, and none for an empty first list. */
  predicate IsAppended(data: seq<byte>, first: seq<nat>, t: nat, after: seq<byte>) {
    if first == [] then after == data
    else first[|first| - 1] + 4 <= |data| && t < TWO32 && after == Put32(data, first[|first| - 1], t)
  }

  /** gsym_addr's effect on the code. */
  predicate IsPatched(data: seq<byte>, list: seq<nat>, a: int, after: seq<byte>) {
    (forall i :: 0 <= i < |list| ==> list[i] + 4 <= |data|) && after == Patched(data, list, a)
  }

  /** A jump instruction with its operand here: e9, or 0f and the condition. */
  predicate IsJumpAt(data: seq<byte>, operand: nat, cond: Option<byte>) {
    operand < |data|
    && match cond
       case None => operand >= 1 && data[operand - 1] == 0xe9
       case Some(c) => operand >= 2 && data[operand - 2] == 0x0f && data[operand - 1] == c
  }

  /** Where a jmp instruction goes, short or long. */
  function Target(data: seq<byte>, at: nat): int {
    if at + 2 <= |data| && data[at] == 0xeb then
      var d: int := data[at + 1];
      at + 2 + (if d < 128 then d else d - 256)
    else if at + 5 <= |data| && data[at] == 0xe9 then (at + 5 + ReadLe32(data, at + 1)) % TWO32
    else -1
  }

  function Length(data: seq<byte>, at: nat): nat {
    if at < |data| && data[at] == 0xeb then 2 else 5
  }

  /** One whole jmp instruction. */
  predicate IsJumpCode(bytes: seq<byte>) {
    (|bytes| == 2 && bytes[0] == 0xeb) || (|bytes| == 5 && bytes[0] == 0xe9)
  }

  /** Where these bytes go as an instruction at `at`. */
  function TargetOf(bytes: seq<byte>, at: nat): int
    requires IsJumpCode(bytes)
  {
    if |bytes| == 2 then
      var d: int := bytes[1];
      at + 2 + (if d < 128 then d else d - 256)
    else (at + 5 + ReadLe32(bytes, 1)) % TWO32
  }

  /** e9, or 0f and the condition. */
  function OpcodeOf(cond: Option<byte>): (bytes: seq<byte>)
    ensures |bytes| == if cond.Some? then 2 else 1
  {
    match cond
    case None => [0xe9]
    case Some(c) => [0x0f, c]
  }

  lemma OpcodeBytes(data: seq<byte>, from: nat, operand: nat, cond: Option<byte>)
    requires IsJumpAt(data, operand, cond) && operand == from + |OpcodeOf(cond)|
    ensures data[from..operand] == OpcodeOf(cond)
  {
  }

  /** The instruction at the end of the code, cut out. */
  lemma CodeOfJump(data: seq<byte>, at: nat, ind: nat)
    requires at < ind <= |data| && data[at] in {0xeb, 0xe9} && Length(data, at) == ind - at
    ensures IsJumpCode(data[at..ind]) && TargetOf(data[at..ind], at) == Target(data, at)
  {
  }

  lemma NothingAtEnd(data: seq<byte>, ind: nat, js: Jumps, code: map<nat, seq<byte>>)
    requires CodeOk(data, ind, js, code)
    ensures ind !in code
  {
  }

  lemma LongLands(data: seq<byte>, at: nat, a: nat)
    requires at + 5 <= |data| && data[at] == 0xe9 && ReadLe32(data, at + 1) == (a - at - 5) % TWO32 && a < TWO32
    ensures Target(data, at) == a
  {
    hide ReadLe32;
    OperandLands(data, at + 1, a);
  }

  lemma OkShape(data: seq<byte>, ind: nat, js: Jumps)
    requires Ok(data, ind, js)
    ensures ind <= |data| < 0x8000_0000
  {
  }

  lemma SamePrefix(data: seq<byte>, after: seq<byte>, ind: nat, js: Jumps, ind2: nat)
    requires Ok(data, ind, js) && SameBelow(data, after, ind) && |data| <= |after| && Ok(after, ind2, js)
    ensures Ok(after, ind, js)
  {
    hide ListOk, DoneOk;
    EmitKeeps(data, after, ind, ind, js);
  }

  lemma HeadInRange(data: seq<byte>, ind: nat, js: Jumps, t: nat)
    requires Ok(data, ind, js) && (t == 0 || t in js.lists)
    ensures t < 0x8000_0000
  {
    if t != 0 {
      assert ListOk(data, ind, t, js.lists[t]);
    }
  }

  lemma NoZero(data: seq<byte>, ind: nat, js: Jumps)
    requires Ok(data, ind, js)
    ensures 0 !in js.lists
  {
    forall h | h in js.lists ensures h > 0 {
      assert ListOk(data, ind, h, js.lists[h]);
      ListBounds(data, js.lists[h], 0);
    }
  }

  lemma ListNext(data: seq<byte>, list: seq<nat>, i: nat)
    requires IsList(data, list) && i < |list| && list[i] + 4 <= |data|
    ensures ReadLe32(data, list[i]) == Head(list[i + 1..])
  {
    ListBounds(data, list, i);
    assert list[i..][1..] == list[i + 1..];
  }

  lemma ListNonzero(list: seq<nat>, i: nat)
    requires i < |list| && Head(list[i + 1..]) != 0
    ensures i + 1 < |list| && list[i + 1] == Head(list[i + 1..])
  {
  }

  lemma ListEnds(data: seq<byte>, list: seq<nat>, i: nat)
    requires IsList(data, list) && i < |list| && Head(list[i + 1..]) == 0
    ensures i + 1 == |list|
  {
    if i + 1 < |list| {
      ListBounds(data, list, i + 1);
    }
  }

  /** Patching the first operand leaves the rest of the list threaded. */
  lemma RestKept(data: seq<byte>, list: seq<nat>, x: u32)
    requires IsList(data, list) && AllSpaced(list) && Head(list) != 0
    requires forall i :: 0 <= i < |list| ==> list[i] + 4 <= |data|
    ensures list != [] && ReadLe32(data, list[0]) == Head(list[1..])
    ensures IsList(Put32(data, list[0], x), list[1..]) && AllSpaced(list[1..])
  {
    hide ReadLe32, Put32;
    var after, rest := Put32(data, list[0], x), list[1..];
    forall i | 0 <= i < |rest| && rest[i] + 4 <= |data| ensures ReadLe32(after, rest[i]) == ReadLe32(data, rest[i]) {
      assert Spaced(list[0], list[i + 1]);
      Put32Elsewhere(data, list[0], x, rest[i]);
    }
    ListKept(data, after, rest);
    forall i, j | 0 <= i < j < |rest| ensures Spaced(rest[i], rest[j]) {
      assert Spaced(list[i + 1], list[j + 1]);
    }
  }

  lemma EmptyPatched(data: seq<byte>, rest: seq<nat>, a: int)
    requires Head(rest) == 0 && IsList(data, rest) && forall i :: 0 <= i < |rest| ==> rest[i] + 4 <= |data|
    ensures Patched(data, rest, a) == data
  {
  }
}
