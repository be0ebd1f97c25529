/** asm_compute_constraints (i386-asm.c): references, the order of allocation, and who gets which register. */
module AsmAllocation {
  import opened AsmConstraints
  import opened Options

  // ---------------------------------------------------------------- references

  /** Fields as the first loop leaves them. */
  function Reset(op: Operand): Operand {
    op.(inputIndex := -1, refIndex := -1, reg := -1, isMemory := false, isRw := false)
  }

  /** The operands differ in computed fields only. */
  predicate SameSource(a: seq<Operand>, b: seq<Operand>) {
    |a| == |b| && forall i :: 0 <= i < |a| ==> a[i].constraint == b[i].constraint && a[i].name == b[i].name && a[i].place == b[i].place
  }

  lemma {:induction false} NamedSame(a: seq<Operand>, b: seq<Operand>, name: string, from: nat)
    requires SameSource(a, b) && from <= |a|
    ensures FirstNamed(a, name, from) == FirstNamed(b, name, from)
    decreases |a| - from
  {
    if from < |a| {
      NamedSame(a, b, name, from + 1);
    }
  }

  lemma FindSame(a: seq<Operand>, b: seq<Operand>, s: string)
    requires SameSource(a, b)
    ensures FindConstraint(a, s) == FindConstraint(b, s)
  {
    if s != [] && s[0] == '[' && Bracket(s[1..]) < |s| - 1 {
      NamedSame(a, b, s[1..1 + Bracket(s[1..])], 0);
    }
  }

  /** A reference names an earlier operand and no output has one; other operands have the priority of their letters. */
  predicate RefOk(ops: seq<Operand>, i: nat, outputs: nat)
    requires i < |ops|
  {
    var s := SkipModifiers(ops[i].constraint);
    if IsReference(s) then
      ops[i].refIndex == FindConstraint(ops, s) && 0 <= ops[i].refIndex < i && i >= outputs && ops[i].priority == 5
      && ops[ops[i].refIndex].inputIndex == i
    else ops[i].refIndex == -1 && IsPriority(s, ops[i].priority)
  }

  predicate InputOk(ops: seq<Operand>, k: nat, n: nat)
    requires k < |ops|
  {
    ops[k].inputIndex == -1 || (0 <= ops[k].inputIndex < n && n <= |ops| && ops[ops[k].inputIndex].refIndex == k)
  }

  predicate RefsOk(ops: seq<Operand>, n: nat, outputs: nat) {
    n <= |ops| && (forall i :: 0 <= i < n ==> RefOk(ops, i, outputs)) && (forall k :: 0 <= k < |ops| ==> InputOk(ops, k, n))
    && forall i :: n <= i < |ops| ==> ops[i].refIndex == -1
  }

  lemma PlainStep(ops: seq<Operand>, i: nat, outputs: nat, priority: int)
    requires i < |ops| && RefsOk(ops, i, outputs) && !IsReference(SkipModifiers(ops[i].constraint))
    requires IsPriority(SkipModifiers(ops[i].constraint), priority)
    ensures RefsOk(ops[i := ops[i].(priority := priority)], i + 1, outputs)
  {
    hide SkipModifiers, IsReference, IsPriority, FindConstraint;
    var after := ops[i := ops[i].(priority := priority)];
    forall j | 0 <= j <= i ensures RefOk(after, j, outputs) {
      FindSame(ops, after, SkipModifiers(ops[j].constraint));
      if j < i { assert RefOk(ops, j, outputs); }
    }
    var next := i + 1;
    forall k | 0 <= k < |ops| ensures InputOk(after, k, next) {
      assert InputOk(ops, k, i);
    }
  }

  lemma ReferenceStep(ops: seq<Operand>, i: nat, outputs: nat, k: nat)
    requires i < |ops| && RefsOk(ops, i, outputs) && IsReference(SkipModifiers(ops[i].constraint))
    requires k == FindConstraint(ops, SkipModifiers(ops[i].constraint)) && k < i && i >= outputs && ops[k].inputIndex < 0
    ensures RefsOk(ops[i := ops[i].(refIndex := k, priority := 5)][k := ops[k].(inputIndex := i)], i + 1, outputs)
  {
    hide SkipModifiers, IsReference, IsPriority, FindConstraint;
    var after := ops[i := ops[i].(refIndex := k, priority := 5)][k := ops[k].(inputIndex := i)];
    forall j | 0 <= j <= i ensures RefOk(after, j, outputs) {
      FindSame(ops, after, SkipModifiers(ops[j].constraint));
      if j < i {
        assert RefOk(ops, j, outputs);
      }
    }
    var next := i + 1;
    forall h | 0 <= h < |ops| ensures InputOk(after, h, next) {
      assert InputOk(ops, h, i);
    }
  }

  datatype Resolution = Resolution(error: Option<Error>, ops: seq<Operand>)

  /** The second loop from operand `i` on. */
  function Resolved(ops: seq<Operand>, i: nat, outputs: nat): (r: Resolution)
    ensures |r.ops| == |ops|
    decreases |ops| - i
  {
    if i >= |ops| then Resolution(None, ops) else
    var s := SkipModifiers(ops[i].constraint);
    if IsReference(s) then
      var k := FindConstraint(ops, s);
      if k < 0 || k >= i || i < outputs then Resolution(Some(InvalidReference), ops)
      else if ops[k].inputIndex >= 0 then Resolution(Some(ReferencedTwice), ops)
      else Resolved(ops[i := ops[i].(refIndex := k, priority := 5)][k := ops[k].(inputIndex := i)], i + 1, outputs)
    else if !AllKnown(s) then Resolution(Some(UnknownConstraint), ops)
    else Resolved(ops[i := ops[i].(priority := TopPriority(s))], i + 1, outputs)
  }

  /** Nothing has a register yet, and the flags are those of `start`. */
  predicate Unallocated(start: seq<Operand>, ops: seq<Operand>) {
    |ops| == |start| && forall k :: 0 <= k < |ops| ==> ops[k].reg == -1 && !ops[k].isMemory && ops[k].isLlong == start[k].isLlong
  }

  lemma {:induction false} ResolvedOk(start: seq<Operand>, ops: seq<Operand>, i: nat, outputs: nat)
    requires RefsOk(ops, i, outputs) && SameSource(start, ops) && Unallocated(start, ops)
    ensures var r := Resolved(ops, i, outputs);
            && SameSource(start, r.ops) && Unallocated(start, r.ops)
            && (r.error.None? ==> RefsOk(r.ops, |r.ops|, outputs))
            && (r.error.Some? ==> r.error.value != NoOutputRegister && exists j :: RefError(r.ops, j, outputs, r.error.value))
    decreases |ops| - i
  {
    hide IsReference, IsPriority, SkipModifiers, FindConstraint, RefOk, LetterPriority;
    if i < |ops| {
      var s := SkipModifiers(ops[i].constraint);
      var k := FindConstraint(ops, s);
      if !IsReference(s) && AllKnown(s) {
        TopIsPriority(s);
        PlainStep(ops, i, outputs, TopPriority(s));
        ResolvedOk(start, ops[i := ops[i].(priority := TopPriority(s))], i + 1, outputs);
      } else if IsReference(s) && 0 <= k < i && i >= outputs && ops[k].inputIndex < 0 {
        ReferenceStep(ops, i, outputs, k);
        ResolvedOk(start, ops[i := ops[i].(refIndex := k, priority := 5)][k := ops[k].(inputIndex := i)], i + 1, outputs);
      } else {
        ResolvedError(ops, i, outputs);
      }
    }
  }

  lemma ResolvedError(ops: seq<Operand>, i: nat, outputs: nat)
    requires RefsOk(ops, i, outputs) && i < |ops|
    requires var s := SkipModifiers(ops[i].constraint);
             var k := FindConstraint(ops, s);
             if IsReference(s) then k < 0 || k >= i || i < outputs || ops[k].inputIndex >= 0 else !AllKnown(s)
    ensures RefError(ops, i, outputs, Resolved(ops, i, outputs).error.value)
  {
    hide IsReference, SkipModifiers, FindConstraint, LetterPriority, RefsOk;
    var s := SkipModifiers(ops[i].constraint);
    if !IsReference(s) {
      var k :| 0 <= k < |s| && LetterPriority(s[k]) < 0;
      LetterRange(s[k]);
    }
  }

  // ---------------------------------------------------------------- order

  /** Every operand once. */
  predicate IsOrder(order: seq<nat>, n: nat) {
    |order| == n && (forall a :: 0 <= a < n ==> order[a] < n)
    && forall a, b :: 0 <= a < b < n ==> order[a] != order[b]
  }

  predicate InOrder(ops: seq<Operand>, x: nat, y: nat) {
    x < |ops| && y < |ops| && ops[x].priority <= ops[y].priority
  }

  predicate IsSorted(ops: seq<Operand>, order: seq<nat>) {
    SortedUpTo(ops, order, |order|)
  }

  /** The first `i` are in place: none of them comes after anything behind it. */
  predicate SortedUpTo(ops: seq<Operand>, order: seq<nat>, i: nat) {
    forall a, b {:trigger order[a], order[b]} :: 0 <= a < i && a < b < |order| ==> InOrder(ops, order[a], order[b])
  }

  predicate LeastUpTo(ops: seq<Operand>, order: seq<nat>, i: nat, j: nat) {
    i < |order| && forall b :: i < b < j && b < |order| ==> InOrder(ops, order[i], order[b])
  }

  lemma SwapKeeps(ops: seq<Operand>, order: seq<nat>, i: nat, j: nat)
    requires i < j < |order| == |ops| && IsOrder(order, |ops|) && SortedUpTo(ops, order, i) && LeastUpTo(ops, order, i, j)
    requires ops[order[j]].priority < ops[order[i]].priority
    ensures var after := order[i := order[j]][j := order[i]];
            IsOrder(after, |ops|) && SortedUpTo(ops, after, i) && LeastUpTo(ops, after, i, j + 1)
  {
    var after := order[i := order[j]][j := order[i]];
    forall a, b | 0 <= a < i && a < b < |order| ensures InOrder(ops, after[a], after[b]) {
      assert InOrder(ops, order[a], order[if b == i then j else if b == j then i else b]);
    }
    forall b | i < b < j + 1 ensures InOrder(ops, after[i], after[b]) {
      if b < j { assert InOrder(ops, order[i], order[b]); }
    }
  }

  /** One round of the inner loop: the smaller of the two comes to `i`. */
  function Exchange(ops: seq<Operand>, order: seq<nat>, i: nat, j: nat): seq<nat>
    requires i < |order| && j < |order|
  {
    if order[i] < |ops| && order[j] < |ops| && ops[order[j]].priority < ops[order[i]].priority then
      order[i := order[j]][j := order[i]]
    else order
  }

  function InnerLoop(ops: seq<Operand>, order: seq<nat>, i: nat, j: nat): (r: seq<nat>)
    requires i < |order|
    ensures |r| == |order|
    decreases |order| - j
  {
    if j >= |order| then order else InnerLoop(ops, Exchange(ops, order, i, j), i, j + 1)
  }

  /** The exchange sort from position `i` on. */
  function Exchanged(ops: seq<Operand>, order: seq<nat>, i: nat): seq<nat>
    decreases |order| - i
  {
    if i + 1 >= |order| then order else Exchanged(ops, InnerLoop(ops, order, i, i + 1), i + 1)
  }

  function InOrderGiven(n: nat): (r: seq<nat>)
    ensures |r| == n && forall a :: 0 <= a < n ==> r[a] == a
  {
    if n == 0 then [] else InOrderGiven(n - 1) + [n - 1]
  }

  lemma {:induction false} InnerLoopOk(ops: seq<Operand>, order: seq<nat>, i: nat, j: nat)
    requires i < j <= |order| == |ops| && IsOrder(order, |ops|) && SortedUpTo(ops, order, i) && LeastUpTo(ops, order, i, j)
    ensures var r := InnerLoop(ops, order, i, j); IsOrder(r, |ops|) && SortedUpTo(ops, r, i) && LeastUpTo(ops, r, i, |r|)
    decreases |order| - j
  {
    hide SortedUpTo, LeastUpTo;
    if j < |order| {
      if ops[order[j]].priority < ops[order[i]].priority {
        SwapKeeps(ops, order, i, j);
      } else {
        LeastGrows(ops, order, i, j);
      }
      InnerLoopOk(ops, Exchange(ops, order, i, j), i, j + 1);
    }
  }

  lemma {:induction false} ExchangedOk(ops: seq<Operand>, order: seq<nat>, i: nat)
    requires |order| == |ops| && IsOrder(order, |ops|) && SortedUpTo(ops, order, i)
    ensures var r := Exchanged(ops, order, i); IsOrder(r, |ops|) && IsSorted(ops, r)
    decreases |order| - i
  {
    hide SortedUpTo, LeastUpTo;
    if i + 1 < |order| {
      LeastOfOne(ops, order, i);
      InnerLoopOk(ops, order, i, i + 1);
      OneMoreSorted(ops, InnerLoop(ops, order, i, i + 1), i);
      ExchangedOk(ops, InnerLoop(ops, order, i, i + 1), i + 1);
    } else {
      LastSorted(ops, order, i);
    }
  }

  function Order(ops: seq<Operand>): seq<nat> {
    Exchanged(ops, InOrderGiven(|ops|), 0)
  }

  lemma OrderOk(ops: seq<Operand>)
    ensures IsOrder(Order(ops), |ops|) && IsSorted(ops, Order(ops))
  {
    NothingSorted(ops, InOrderGiven(|ops|));
    ExchangedOk(ops, InOrderGiven(|ops|), 0);
  }

  /** The exchange sort. */
  method SortByPriority(ops: seq<Operand>) returns (order: array<nat>)
    ensures fresh(order) && order[..] == Order(ops)
    ensures IsOrder(order[..], |ops|) && IsSorted(ops, order[..])
  {
    hide IsOrder, IsSorted, Exchange;
    var n := |ops|;
    order := new nat[n];
    var i := 0;
    while i < n
      invariant 0 <= i <= n && order[..i] == InOrderGiven(i)
    {
      order[i] := i;
      i := i + 1;
      assert order[..i] == order[..i - 1] + [i - 1];
    }
    assert order[..] == InOrderGiven(n);
    OrderOk(ops);
    i := 0;
    while i < n - 1
      invariant 0 <= i <= n && Below(order[..], n) && Exchanged(ops, order[..], i) == Order(ops)
    {
      ghost var outer := order[..];
      var j := i + 1;
      while j < n
        invariant i < j <= n && Below(order[..], n) && InnerLoop(ops, order[..], i, j) == InnerLoop(ops, outer, i, i + 1)
      {
        ghost var before := order[..];
        if ops[order[j]].priority < ops[order[i]].priority {
          order[i], order[j] := order[j], order[i];
        }
        assert order[..] == Exchange(ops, before, i, j) by { ExchangeIs(ops, before, order[..], i, j); }
        j := j + 1;
      }
      i := i + 1;
    }
  }

  predicate Below(order: seq<nat>, n: nat) {
    |order| == n && forall a :: 0 <= a < n ==> order[a] < n
  }

  lemma ExchangeIs(ops: seq<Operand>, before: seq<nat>, after: seq<nat>, i: nat, j: nat)
    requires i < j < |before| && Below(before, |ops|)
    requires after == if ops[before[j]].priority < ops[before[i]].priority then before[i := before[j]][j := before[i]] else before
    ensures after == Exchange(ops, before, i, j)
  {
  }

  lemma NothingSorted(ops: seq<Operand>, order: seq<nat>)
    ensures SortedUpTo(ops, order, 0)
  {
  }

  lemma LeastOfOne(ops: seq<Operand>, order: seq<nat>, i: nat)
    requires i < |order|
    ensures LeastUpTo(ops, order, i, i + 1)
  {
  }

  lemma LeastGrows(ops: seq<Operand>, order: seq<nat>, i: nat, j: nat)
    requires LeastUpTo(ops, order, i, j) && j < |order| && InOrder(ops, order[i], order[j])
    ensures LeastUpTo(ops, order, i, j + 1)
  {
  }

  lemma OneMoreSorted(ops: seq<Operand>, order: seq<nat>, i: nat)
    requires SortedUpTo(ops, order, i) && LeastUpTo(ops, order, i, |order|)
    ensures SortedUpTo(ops, order, i + 1)
  {
  }

  lemma LastSorted(ops: seq<Operand>, order: seq<nat>, i: nat)
    requires SortedUpTo(ops, order, i) && i + 1 >= |order|
    ensures IsSorted(ops, order)
  {
  }

  // ---------------------------------------------------------------- what allocation keeps

  /** esp, ebp and the clobbered registers. */
  predicate Reserved(clobbered: seq<bool>, r: nat) {
    r == ESP || r == EBP || (r < |clobbered| && clobbered[r])
  }

  predicate ReservedTaken(regs: seq<Use>, clobbered: seq<bool>) {
    |regs| == REGS && forall r :: 0 <= r < REGS && Reserved(clobbered, r) ==> regs[r] == BOTH
  }

  /** A grant holds usable registers, marked for its use, and the operand's fields tell which. */
  predicate GrantOk(op: Operand, output: bool, g: Grant, regs: seq<Use>, clobbered: seq<bool>) {
    && |regs| == REGS && op.refIndex < 0 && MeetsConstraint(op, output, g)
    && (forall r :: r in g.regs ==> r < REGS && !Reserved(clobbered, r) && Covers(regs[r], g.mask))
    && (if g.regs == {} then op.reg == -1 && !op.isMemory
        else op.reg in g.regs && op.isMemory == g.memory && (!g.memory ==> g.regs == if op.isLlong then {0, 2} else {op.reg})
             && (!g.memory && op.isLlong ==> op.reg == 0)
             && (g.memory ==> g.regs == {op.reg}))
  }

  predicate NoClash(g: Grant, h: Grant) {
    Meets(g.mask, h.mask) ==> g.regs !! h.regs
  }

  /** A tied input has what its operand has; before that, and when its operand is itself tied, it has nothing. */
  predicate TiedOk(ops: seq<Operand>, grants: map<nat, Grant>, i: nat)
    requires i < |ops|
  {
    var k := ops[i].refIndex;
    0 <= k < |ops| ==>
      !ops[i].isMemory && if k in grants then ops[i].reg == ops[k].reg && ops[i].isLlong == ops[k].isLlong else ops[i].reg == -1
  }

  /** Some operand holds the register for a use that meets `use`. */
  predicate HeldFor(grants: map<nat, Grant>, r: nat, use: Use) {
    exists p :: p in grants && r in grants[p].regs && Meets(grants[p].mask, use)
  }

  /** A register is taken for a use only when it is reserved or an operand holds it for that use. */
  ghost predicate OnlyHeld(regs: seq<Use>, grants: map<nat, Grant>, clobbered: seq<bool>) {
    forall r, use {:trigger HeldFor(grants, r, use)} :: 0 <= r < |regs| && Meets(regs[r], use) ==>
                                                          Reserved(clobbered, r) || HeldFor(grants, r, use)
  }

  ghost predicate AllocOk(ops: seq<Operand>, regs: seq<Use>, grants: map<nat, Grant>, clobbered: seq<bool>, outputs: nat) {
    && ReservedTaken(regs, clobbered) && OnlyHeld(regs, grants, clobbered)
    && (forall p :: p in grants ==> p < |ops| && GrantOk(ops[p], p < outputs, grants[p], regs, clobbered))
    && (forall p, q {:trigger NoClash(grants[p], grants[q])} :: p in grants && q in grants && p != q ==>
                                                                  NoClash(grants[p], grants[q]))
    && (forall i :: 0 <= i < |ops| ==> TiedOk(ops, grants, i))
    && (forall i :: 0 <= i < |ops| && ops[i].refIndex < 0 && i !in grants ==> ops[i].reg == -1 && !ops[i].isMemory)
  }

  /** What a letter gets is free, and the use is never empty. */
  lemma TryIsFree(c: char, op: Operand, output: bool, regs: seq<Use>, mask: Use, g: Grant)
    requires |regs| == REGS && Try(c, op, output, regs, mask) == Some(g)
    ensures forall r :: r in g.regs ==> r < REGS && !Meets(regs[r], g.mask)
    ensures g.mask == if g.memory then IN else mask
    ensures g.regs == {} || g.regs == {Lowest(g.regs)} || (g.regs == {0, 2} && Lowest(g.regs) == 0)
    ensures g.memory ==> g.regs != {0, 2} && g.regs != {}
    ensures g.regs != {} ==> Lowest(g.regs) in g.regs
  {
    hide Meets;
    SingleLowest();
  }

  lemma SingleLowest()
    ensures forall r: nat :: r < REGS ==> Lowest({r}) == r
    ensures forall r: nat :: {r} != {0, 2}
    ensures Lowest({0, 2}) == 0
  {
    forall r: nat ensures {r} != {0, 2} {
      assert 0 in {0, 2} && 2 in {0, 2};
      assert 0 !in {r} || 2 !in {r};
    }
  }

  lemma MarkedCovers(regs: seq<Use>, g: Grant, clobbered: seq<bool>)
    requires ReservedTaken(regs, clobbered) && forall r :: r in g.regs ==> r < REGS && !Meets(regs[r], g.mask)
    requires g.mask.inp || g.mask.out
    ensures ReservedTaken(Marked(regs, g), clobbered)
    ensures forall r :: 0 <= r < REGS && r in g.regs ==> Covers(Marked(regs, g)[r], g.mask) && !Reserved(clobbered, r)
    ensures forall r :: 0 <= r < REGS ==> Covers(Marked(regs, g)[r], regs[r])
  {
    forall r | 0 <= r < REGS && Reserved(clobbered, r) ensures r !in g.regs {
      assert regs[r] == BOTH;
    }
  }

  /** What was granted stays granted. */
  lemma OldGrantOk(op: Operand, output: bool, h: Grant, regs: seq<Use>, after: seq<Use>, clobbered: seq<bool>)
    requires GrantOk(op, output, h, regs, clobbered) && |after| == REGS
    requires forall r :: 0 <= r < REGS ==> Covers(after[r], regs[r])
    ensures GrantOk(op, output, h, after, clobbered)
  {
    hide MeetsConstraint;
    forall r | r in h.regs ensures Covers(after[r], h.mask) {
      assert Covers(after[r], regs[r]) && Covers(regs[r], h.mask);
    }
  }

  lemma NewGrantOk(op: Operand, output: bool, regs: seq<Use>, at: nat, g: Grant, clobbered: seq<bool>)
    requires ReservedTaken(regs, clobbered) && Chosen(op, output, regs, at, g)
    requires op.refIndex < 0 && op.reg == -1 && !op.isMemory
    ensures GrantOk(Given(op, g, at), output, g, Marked(regs, g), clobbered)
    ensures ReservedTaken(Marked(regs, g), clobbered)
    ensures forall r :: 0 <= r < REGS ==> Covers(Marked(regs, g)[r], regs[r])
    ensures forall r :: r in g.regs ==> r < REGS && !Meets(regs[r], g.mask)
  {
    hide Try, Stop, Lowest, Meets, Marked, Allows, LetterPriority;
    var mask := MaskAt(op, output, at);
    TryIsAllowed(op.constraint[at], op, output, regs, mask, g);
    TryIsFree(op.constraint[at], op, output, regs, mask, g);
    assert MeetsConstraint(Given(op, g, at), output, g) by {
      forall k | 0 <= k < at
        ensures op.constraint[k] == '=' || (op.constraint[k] in "+&" && output) || IsLetter(op.constraint[k])
      {
        assert Passes(op, output, regs, k);
      }
      assert GrantedAt(Given(op, g, at), output, g, at);
    }
    MarkedCovers(regs, g, clobbered);
  }

  lemma FreshDoesNotClash(regs: seq<Use>, g: Grant, h: Grant)
    requires |regs| == REGS && forall r :: r in g.regs ==> r < REGS && !Meets(regs[r], g.mask)
    requires forall r :: r in h.regs ==> r < REGS && Covers(regs[r], h.mask)
    ensures NoClash(g, h) && NoClash(h, g)
  {
  }

  lemma OnlyHeldStep(regs: seq<Use>, grants: map<nat, Grant>, clobbered: seq<bool>, p: nat, g: Grant)
    requires OnlyHeld(regs, grants, clobbered) && p !in grants
    ensures OnlyHeld(Marked(regs, g), grants[p := g], clobbered)
  {
    var after, grants2 := Marked(regs, g), grants[p := g];
    forall r, use | 0 <= r < |regs| && Meets(after[r], use) && !Reserved(clobbered, r) ensures HeldFor(grants2, r, use) {
      if Meets(regs[r], use) {
        assert HeldFor(grants, r, use);
        var h :| h in grants && r in grants[h].regs && Meets(grants[h].mask, use);
        assert grants2[h] == grants[h];
      } else {
        assert r in grants2[p].regs;
      }
    }
  }

  /** The operand with its grant, and its tied input given the same register. */
  function WithTied(ops: seq<Operand>, p: nat, op: Operand): seq<Operand>
    requires p < |ops|
  {
    var done := ops[p := op];
    if 0 <= op.inputIndex < |ops| then done[op.inputIndex := done[op.inputIndex].(reg := op.reg, isLlong := op.isLlong)] else done
  }

  /** Allocating one operand keeps everything allocated before it. */
  lemma AllocStep(ops: seq<Operand>, regs: seq<Use>, grants: map<nat, Grant>, clobbered: seq<bool>, outputs: nat,
                  p: nat, at: nat, g: Grant)
    requires p < |ops| && p !in grants && ops[p].refIndex < 0 && ops[p].inputIndex < |ops|
    requires RefsOk(ops, |ops|, outputs) && AllocOk(ops, regs, grants, clobbered, outputs)
    requires Chosen(ops[p], p < outputs, regs, at, g)
    ensures AllocOk(WithTied(ops, p, Given(ops[p], g, at)), Marked(regs, g), grants[p := g], clobbered, outputs)
  {
    hide Chosen, Marked, GrantOk, NoClash, IsReference, IsPriority, SkipModifiers, FindConstraint, Given, OnlyHeld;
    GivenKeeps(ops[p], g, at);
    OnlyHeldStep(regs, grants, clobbered, p, g);
    var op := Given(ops[p], g, at);
    var after, regs2, grants2 := WithTied(ops, p, op), Marked(regs, g), grants[p := g];
    var q := op.inputIndex;
    assert RefOk(ops, p, outputs) && InputOk(ops, p, |ops|);
    NewGrantOk(ops[p], p < outputs, regs, at, g, clobbered);
    forall h | h in grants ensures ops[h].refIndex < 0 && h != q {
      Untied(ops[h], h < outputs, grants[h], regs, clobbered);
    }
    forall h | h in grants2 ensures h < |after| && GrantOk(after[h], h < outputs, grants2[h], regs2, clobbered) {
      if h != p {
        OldGrantOk(ops[h], h < outputs, grants[h], regs, regs2, clobbered);
      }
    }
    forall h | h in grants ensures NoClash(g, grants[h]) && NoClash(grants[h], g) {
      HeldRegs(ops[h], h < outputs, grants[h], regs, clobbered);
      FreshDoesNotClash(regs, g, grants[h]);
    }
    forall i | 0 <= i < |ops| ensures TiedOk(after, grants2, i) {
      assert TiedOk(ops, grants, i) && RefOk(ops, i, outputs);
    }
  }

  lemma GivenKeeps(op: Operand, g: Grant, at: nat)
    ensures var o := Given(op, g, at);
            o.inputIndex == op.inputIndex && o.refIndex == op.refIndex && o.priority == op.priority
            && o.constraint == op.constraint && o.name == op.name && o.place == op.place
  {
  }

  lemma Untied(op: Operand, output: bool, h: Grant, regs: seq<Use>, clobbered: seq<bool>)
    requires GrantOk(op, output, h, regs, clobbered)
    ensures op.refIndex < 0
  {
  }

  lemma HeldRegs(op: Operand, output: bool, h: Grant, regs: seq<Use>, clobbered: seq<bool>)
    requires GrantOk(op, output, h, regs, clobbered)
    ensures forall r :: r in h.regs ==> r < REGS && Covers(regs[r], h.mask)
  {
  }

  lemma RefsKept(ops: seq<Operand>, p: nat, op: Operand, outputs: nat)
    requires p < |ops| && RefsOk(ops, |ops|, outputs) && op.inputIndex == ops[p].inputIndex && op.inputIndex < |ops|
    requires op.refIndex == ops[p].refIndex && op.priority == ops[p].priority && op.constraint == ops[p].constraint
    requires op.name == ops[p].name && op.place == ops[p].place
    ensures RefsOk(WithTied(ops, p, op), |ops|, outputs)
  {
    hide IsReference, IsPriority, SkipModifiers, FindConstraint;
    var after := WithTied(ops, p, op);
    var n := |ops|;
    forall j | 0 <= j < n ensures RefOk(after, j, outputs) {
      FindSame(ops, after, SkipModifiers(ops[j].constraint));
      assert RefOk(ops, j, outputs);
    }
    forall k | 0 <= k < n ensures InputOk(after, k, n) {
      assert InputOk(ops, k, n);
    }
  }

  datatype Allocation = Allocation(error: Option<Error>, ops: seq<Operand>, regs: seq<Use>, grants: map<nat, Grant>)

  /** The third loop from turn `i` on. */
  function Allocated(ops: seq<Operand>, regs: seq<Use>, grants: map<nat, Grant>, order: seq<nat>, i: nat, outputs: nat): Allocation
    decreases |order| - i
  {
    if i >= |order| || order[i] >= |ops| then Allocation(None, ops, regs, grants) else
    var p := order[i];
    if ops[p].refIndex >= 0 then Allocated(ops, regs, grants, order, i + 1, outputs) else
    var at, g := Stop(ops[p], p < outputs, regs, 0), GrantAt(ops[p], p < outputs, regs);
    if at == |ops[p].constraint| then Allocation(Some(Unsatisfied), ops, regs, grants)
    else if ops[p].constraint[at] in "+&" then Allocation(Some(BadModifier), ops, regs, grants)
    else if !IsLetter(ops[p].constraint[at]) then Allocation(Some(Unsatisfied), ops, regs, grants)
    else Allocated(WithTied(ops, p, Given(ops[p], g, at)), Marked(regs, g), grants[p := g], order, i + 1, outputs)
  }

  /** What holds before turn `i`. */
  ghost predicate TurnOk(start: seq<Operand>, ops: seq<Operand>, regs: seq<Use>, grants: map<nat, Grant>, order: seq<nat>,
                         clobbered: seq<bool>, outputs: nat, i: nat)
  {
    && SameSource(start, ops) && FlagsKept(start, ops) && IsOrder(order, |ops|) && IsSorted(ops, order)
    && RefsOk(ops, |ops|, outputs) && AllocOk(ops, regs, grants, clobbered, outputs) && GrantedFirst(ops, order, grants, i)
  }

  lemma TurnStep(start: seq<Operand>, ops: seq<Operand>, regs: seq<Use>, grants: map<nat, Grant>, order: seq<nat>,
                 clobbered: seq<bool>, outputs: nat, i: nat, p: nat, at: nat, g: Grant)
    requires TurnOk(start, ops, regs, grants, order, clobbered, outputs, i) && i < |ops| && i < |order| && order[i] == p < |ops|
    requires ops[p].refIndex < 0 && Chosen(ops[p], p < outputs, regs, at, g)
    ensures TurnOk(start, WithTied(ops, p, Given(ops[p], g, at)), Marked(regs, g), grants[p := g], order, clobbered, outputs, i + 1)
  {
    hide RefsOk, AllocOk, IsOrder, IsSorted, SameSource, Chosen, Given, Marked, FlagsKept, GrantedFirst;
    OrderFacts(order, |ops|, i);
    OneOperand(ops, regs, grants, clobbered, outputs, order, i, p);
    GivenKeeps(ops[p], g, at);
    AllocStep(ops, regs, grants, clobbered, outputs, p, at, g);
    RefsKept(ops, p, Given(ops[p], g, at), outputs);
    TiedSame(start, ops, p, Given(ops[p], g, at), order);
    FlagsStep(start, ops, regs, grants, clobbered, outputs, p, at, g);
    GrantedStep(ops, WithTied(ops, p, Given(ops[p], g, at)), order, grants, i, p, g);
  }

  lemma {:induction false} AllocatedOk(start: seq<Operand>, ops: seq<Operand>, regs: seq<Use>, grants: map<nat, Grant>, order: seq<nat>,
                                       clobbered: seq<bool>, outputs: nat, i: nat)
    requires TurnOk(start, ops, regs, grants, order, clobbered, outputs, i)
    ensures var r := Allocated(ops, regs, grants, order, i, outputs);
            && SameSource(start, r.ops)
            && (r.error.None? ==> TurnOk(start, r.ops, r.regs, r.grants, order, clobbered, outputs, |r.ops|))
            && (r.error.Some? ==> r.error.value in {BadModifier, Unsatisfied}
                                  && exists k :: AllocError(r.ops, r.regs, order, r.grants, clobbered, outputs, k, r.error.value))
    decreases |order| - i
  {
    hide RefsOk, AllocOk, IsSorted, SameSource, Given, Marked, FlagsKept, GrantedFirst, IsLetter, AllocError, Try;
    if i < |order| {
      var p := order[i];
      OrderFacts(order, |ops|, i);
      if ops[p].refIndex >= 0 {
        GrantedSkip(ops, order, grants, i);
        AllocatedOk(start, ops, regs, grants, order, clobbered, outputs, i + 1);
      } else {
        var at, g := Stop(ops[p], p < outputs, regs, 0), GrantAt(ops[p], p < outputs, regs);
        NoLetter();
        if at < |ops[p].constraint| && IsLetter(ops[p].constraint[at]) {
          StopChooses(ops[p], p < outputs, regs);
          TurnStep(start, ops, regs, grants, order, clobbered, outputs, i, p, at, g);
          AllocatedOk(start, WithTied(ops, p, Given(ops[p], g, at)), Marked(regs, g), grants[p := g], order, clobbered, outputs, i + 1);
        } else {
          Refused(ops, regs, order, grants, clobbered, outputs, i, Allocated(ops, regs, grants, order, i, outputs).error.value);
        }
      }
    } else {
      AllSeen(ops, order, grants, i);
    }
  }

  lemma AllSeen(ops: seq<Operand>, order: seq<nat>, grants: map<nat, Grant>, i: nat)
    requires GrantedFirst(ops, order, grants, i) && i >= |order| && IsOrder(order, |ops|)
    ensures GrantedFirst(ops, order, grants, |ops|)
  {
  }

  lemma StopChooses(op: Operand, output: bool, regs: seq<Use>)
    requires var at := Stop(op, output, regs, 0); at < |op.constraint| && IsLetter(op.constraint[at])
    ensures Chosen(op, output, regs, Stop(op, output, regs, 0), GrantAt(op, output, regs))
  {
    hide Try, IsLetter;
  }

  // ---------------------------------------------------------------- the whole computation

  /** How asm_compute_constraints leaves the operands and the registers, or the error it stops with. */
  datatype Run = Run(error: Option<Error>, ops: seq<Operand>, regs: seq<Use>, order: seq<nat>, grants: map<nat, Grant>)

  function Blanked(start: seq<Operand>): (ops: seq<Operand>)
    ensures |ops| == |start| && forall i :: 0 <= i < |ops| ==> ops[i] == Reset(start[i])
  {
    seq(|start|, i requires 0 <= i < |start| => Reset(start[i]))
  }

  function Taken(clobbered: seq<bool>): (regs: seq<Use>)
    ensures |regs| == REGS && forall r :: 0 <= r < REGS ==> regs[r] == if Reserved(clobbered, r) then BOTH else FREE
  {
    seq(REGS, r requires 0 <= r < REGS => if Reserved(clobbered, r) then BOTH else FREE)
  }

  function RunOf(start: seq<Operand>, outputs: nat, clobbered: seq<bool>): Run {
    var r := Resolved(Blanked(start), 0, outputs);
    if r.error.Some? then Run(r.error, r.ops, [], [], map[]) else
    var a := Allocated(r.ops, Taken(clobbered), map[], Order(r.ops), 0, outputs);
    Run(if a.error.Some? then a.error else if NoOutReg(a.ops, a.regs) then Some(NoOutputRegister) else None,
        a.ops, a.regs, Order(r.ops), a.grants)
  }

  /** What holds of every successful run. */
  ghost predicate RunOk(start: seq<Operand>, outputs: nat, clobbered: seq<bool>, run: Run) {
    && RefsOk(run.ops, |run.ops|, outputs) && IsOrder(run.order, |run.ops|) && IsSorted(run.ops, run.order)
    && AllocOk(run.ops, run.regs, run.grants, clobbered, outputs) && Finished(run.ops, run.grants) && FlagsKept(start, run.ops)
  }

  lemma AllocationIsSound(start: seq<Operand>, ops: seq<Operand>, outputs: nat, clobbered: seq<bool>)
    requires SameSource(start, ops) && Unallocated(start, ops) && RefsOk(ops, |ops|, outputs)
    ensures var order := Order(ops);
            var a := Allocated(ops, Taken(clobbered), map[], order, 0, outputs);
            && SameSource(start, a.ops)
            && (a.error.None? ==> RunOk(start, outputs, clobbered, Run(None, a.ops, a.regs, order, a.grants)))
            && (a.error.Some? ==> a.error.value in {BadModifier, Unsatisfied}
                                  && exists k :: AllocError(a.ops, a.regs, order, a.grants, clobbered, outputs, k, a.error.value))
  {
    hide RefsOk, AllocOk, SameSource, AllocError, IsOrder, IsSorted, FlagsKept, Unallocated, Order, Allocated, Taken, GrantedFirst;
    OrderOk(ops);
    FirstTurn(start, ops, Order(ops), clobbered, outputs);
    AllocatedOk(start, ops, Taken(clobbered), map[], Order(ops), clobbered, outputs, 0);
    var a := Allocated(ops, Taken(clobbered), map[], Order(ops), 0, outputs);
    if a.error.None? {
      AllGranted(a.ops, Order(ops), a.grants);
    }
  }

  /** Every run ends sound, or with an error it can justify. */
  lemma RunIsSound(start: seq<Operand>, outputs: nat, clobbered: seq<bool>)
    ensures var run := RunOf(start, outputs, clobbered);
            && SameSource(start, run.ops)
            && (run.error.None? ==> RunOk(start, outputs, clobbered, run))
            && (run.error.Some? ==> Justified(run.ops, run.regs, run.order, run.grants, clobbered, outputs, run.error.value))
  {
    hide RefsOk, AllocOk, SameSource, RefError, AllocError, IsOrder, IsSorted, FlagsKept, NoOutReg, Finished, Unallocated,
      Resolved, Allocated, Order, Taken, Blanked;
    BlankedOk(start, outputs);
    ResolvedOk(start, Blanked(start), 0, outputs);
    var r := Resolved(Blanked(start), 0, outputs);
    if r.error.None? {
      AllocationIsSound(start, r.ops, outputs, clobbered);
    }
  }

  lemma BlankedOk(start: seq<Operand>, outputs: nat)
    ensures RefsOk(Blanked(start), 0, outputs) && SameSource(start, Blanked(start)) && Unallocated(start, Blanked(start))
  {
  }

  lemma FirstTurn(start: seq<Operand>, ops: seq<Operand>, order: seq<nat>, clobbered: seq<bool>, outputs: nat)
    requires SameSource(start, ops) && Unallocated(start, ops) && RefsOk(ops, |ops|, outputs)
    requires IsOrder(order, |ops|) && IsSorted(ops, order)
    ensures TurnOk(start, ops, Taken(clobbered), map[], order, clobbered, outputs, 0)
  {
    hide RefsOk, IsSorted;
  }

  class Allocator {
    var operands: seq<Operand>
    var regs: seq<Use>
    /** The order of allocation, and what each operand that is not a reference was granted. */
    ghost var order: seq<nat>
    ghost var grants: map<nat, Grant>

    constructor (ops: seq<Operand>)
      ensures operands == ops
    {
      operands := ops;
      regs := [];
      order := [];
      grants := map[];
    }

    /** asm_compute_constraints for operands that are not register variables. */
    method Compute(outputs: nat, clobbered: seq<bool>) returns (error: Option<Error>, outReg: int)
      requires outputs <= |operands| && |clobbered| == REGS
      modifies this
      ensures Run(error, operands, regs, order, grants) == RunOf(old(operands), outputs, clobbered)
      ensures SameSource(old(operands), operands)
      ensures error.None? ==> RunOk(old(operands), outputs, clobbered, RunOf(old(operands), outputs, clobbered))
      ensures error.None? ==> OutRegOk(operands, regs, outReg)
      ensures error.Some? ==> Justified(operands, regs, order, grants, clobbered, outputs, error.value)
    {
      hide SameSource, RunOk, Justified, Resolved, Allocated, Order, NoOutReg, OutRegOk;
      ghost var start := operands;
      RunIsSound(start, outputs, clobbered);
      outReg, regs, order, grants := -1, [], [], map[];
      InitFields();
      BlankInputs(operands);
      error := ResolveReferences(outputs);
      if error.Some? {
        return;
      }
      var sorted := SortByPriority(operands);
      order := sorted[..];
      InitRegs(clobbered);
      error := AllocateAll(sorted, outputs);
      if error.Some? {
        return;
      }
      error, outReg := OutRegister();
    }

    /** The fields the first loop resets. */
    method InitFields()
      modifies this`operands
      ensures operands == Blanked(old(operands))
    {
      ghost var start := operands;
      var i := 0;
      while i < |operands|
        invariant 0 <= i <= |operands| == |start|
        invariant forall k :: 0 <= k < i ==> operands[k] == Reset(start[k])
        invariant forall k :: i <= k < |start| ==> operands[k] == start[k]
        modifies this`operands
      {
        operands := operands[i := Reset(operands[i])];
        i := i + 1;
      }
    }

    method ResolveReferences(outputs: nat) returns (error: Option<Error>)
      requires InputsInside(operands)
      modifies this`operands
      ensures Resolution(error, operands) == Resolved(old(operands), 0, outputs)
      ensures InputsInside(operands)
    {
      hide IsReference, SkipModifiers, FindConstraint, LetterPriority, TopPriority;
      ghost var start := operands;
      var i := 0;
      while i < |operands|
        invariant 0 <= i <= |operands| && InputsInside(operands)
        invariant Resolved(operands, i, outputs) == Resolved(start, 0, outputs)
        modifies this`operands
      {
        var s := SkipModifiers(operands[i].constraint);
        if IsReference(s) {
          var k := FindConstraint(operands, s);
          if k < 0 || k >= i || i < outputs {
            return Some(InvalidReference);
          }
          if operands[k].inputIndex >= 0 {
            return Some(ReferencedTwice);
          }
          ghost var before := operands;
          operands := operands[i := operands[i].(refIndex := k, priority := 5)];
          operands := operands[k := operands[k].(inputIndex := i)];
          assert operands == before[i := before[i].(refIndex := k, priority := 5)][k := before[k].(inputIndex := i)];
        } else {
          var priority := ConstraintPriority(s);
          if priority.None? {
            return Some(UnknownConstraint);
          }
          PriorityIsTop(s, priority.value);
          operands := operands[i := operands[i].(priority := priority.value)];
        }
        i := i + 1;
      }
      error := None;
    }

    /** Clobbered registers, esp and ebp start out taken. */
    method InitRegs(clobbered: seq<bool>)
      requires |clobbered| == REGS
      modifies this`regs
      ensures regs == Taken(clobbered)
    {
      regs := [];
      var i := 0;
      while i < REGS
        invariant 0 <= i <= REGS && |regs| == i && forall r :: 0 <= r < i ==> regs[r] == if clobbered[r] then BOTH else FREE
        modifies this`regs
      {
        regs := regs + [if clobbered[i] then BOTH else FREE];
        i := i + 1;
      }
      regs := regs[ESP := BOTH][EBP := BOTH];
    }

    method AllocateAll(sorted: array<nat>, outputs: nat) returns (error: Option<Error>)
      requires InputsInside(operands) && |regs| == REGS && Below(sorted[..], |operands|) && grants == map[]
      modifies this`operands, this`regs, this`grants
      ensures Allocation(error, operands, regs, grants) == Allocated(old(operands), old(regs), map[], sorted[..], 0, outputs)
      ensures |regs| == REGS
    {
      hide IsLetter, Marked, Given, Stop, GrantAt;
      ghost var start, taken, order := operands, regs, sorted[..];
      var i := 0;
      while i < |operands|
        invariant 0 <= i <= |operands| && |regs| == REGS && InputsInside(operands) && Below(order, |operands|) && order == sorted[..]
        invariant Allocated(operands, regs, grants, order, i, outputs) == Allocated(start, taken, map[], order, 0, outputs)
        modifies this`operands, this`regs, this`grants
      {
        var j := sorted[i];
        var op := operands[j];
        if op.refIndex < 0 {
          var failed, given, marked := Choose(op, j < outputs, regs);
          ghost var at, g := Stop(op, j < outputs, regs, 0), GrantAt(op, j < outputs, regs);
          NoLetter();
          if failed.Some? {
            return failed;
          }
          GivenKeeps(op, g, at);
          ghost var before := operands;
          operands := operands[j := given];
          if given.inputIndex >= 0 {
            operands := operands[given.inputIndex := operands[given.inputIndex].(reg := given.reg, isLlong := given.isLlong)];
          }
          assert operands == WithTied(before, j, given);
          regs := marked;
          grants := grants[j := g];
        }
        i := i + 1;
      }
      error := None;
    }

    /** out_reg: a register for storing the outputs whose addresses are kept in the frame. */
    method OutRegister() returns (error: Option<Error>, outReg: int)
      requires |regs| == REGS
      ensures error.None? ==> OutRegOk(operands, regs, outReg)
      ensures error == if NoOutReg(operands, regs) then Some(NoOutputRegister) else None
    {
      outReg := -1;
      error := None;
      var i := 0;
      while i < |operands|
        invariant 0 <= i <= |operands| && forall k :: 0 <= k < i ==> !NeedsOutReg(operands[k])
      {
        if operands[i].reg >= 0 && operands[i].place.FramePointer? && !operands[i].isMemory {
          var r := LowestFreeRegister(regs, REGS, OUT);
          if r == REGS {
            assert NeedsOutReg(operands[i]);
            return Some(NoOutputRegister), -1;
          }
          return None, r;
        }
        i := i + 1;
      }
    }
  }

  /** References to an operand come from operands. */
  predicate InputsInside(ops: seq<Operand>) {
    forall k :: 0 <= k < |ops| ==> ops[k].inputIndex < |ops|
  }

  lemma BlankInputs(ops: seq<Operand>)
    requires forall k :: 0 <= k < |ops| ==> ops[k].inputIndex == -1
    ensures InputsInside(ops)
  {
  }

  /** An operand left without a register of its own keeps the double-register flag it came with. */
  predicate FlagsKept(before: seq<Operand>, after: seq<Operand>) {
    |after| == |before| && forall p :: 0 <= p < |after| && after[p].refIndex < 0 && (after[p].reg < 0 || after[p].isMemory) ==>
                                         after[p].isLlong == before[p].isLlong
  }

  lemma FlagsStep(start: seq<Operand>, ops: seq<Operand>, regs: seq<Use>, grants: map<nat, Grant>, clobbered: seq<bool>,
                  outputs: nat, p: nat, at: nat, g: Grant)
    requires FlagsKept(start, ops) && RefsOk(ops, |ops|, outputs) && AllocOk(ops, regs, grants, clobbered, outputs)
    requires p < |ops| && p !in grants && ops[p].refIndex < 0 && ops[p].inputIndex < |ops|
    requires Chosen(ops[p], p < outputs, regs, at, g)
    ensures FlagsKept(start, WithTied(ops, p, Given(ops[p], g, at)))
  {
    hide Try, Stop, Lowest, GrantOk, NoClash, OnlyHeld, RefOk;
    assert InputOk(ops, p, |ops|);
    TryIsFree(ops[p].constraint[at], ops[p], p < outputs, regs, MaskAt(ops[p], p < outputs, at), g);
  }

  /** Why a constraint string is rejected before allocation. */
  predicate RefError(ops: seq<Operand>, i: nat, outputs: nat, e: Error) {
    i < |ops| && RefsOk(ops, i, outputs)
    && var s := SkipModifiers(ops[i].constraint);
       var k := FindConstraint(ops, s);
       match e
       case InvalidReference => IsReference(s) && (k < 0 || k >= i || i < outputs)
       case ReferencedTwice => IsReference(s) && 0 <= k < i && i >= outputs && ops[k].inputIndex >= 0
       case UnknownConstraint => !IsReference(s) && exists j :: 0 <= j < |s| && LetterPriority(s[j]) == -1
       case _ => false
  }

  /** Why an operand is refused when its turn comes, with everything before it allocated. */
  ghost predicate AllocError(ops: seq<Operand>, regs: seq<Use>, order: seq<nat>, grants: map<nat, Grant>, clobbered: seq<bool>,
                             outputs: nat, i: nat, e: Error)
  {
    && RefsOk(ops, |ops|, outputs) && AllocOk(ops, regs, grants, clobbered, outputs)
    && IsOrder(order, |ops|) && IsSorted(ops, order)
    && i < |order| && order[i] < |ops| && GrantedFirst(ops, order, grants, i) && ops[order[i]].refIndex < 0
    && var op := ops[order[i]];
       var at := Stop(op, order[i] < outputs, regs, 0);
       if e == BadModifier then at < |op.constraint| && op.constraint[at] in "+&"
       else e == Unsatisfied && (at == |op.constraint| || !(IsLetter(op.constraint[at]) || op.constraint[at] in "+&"))
  }

  lemma Refused(ops: seq<Operand>, regs: seq<Use>, order: seq<nat>, grants: map<nat, Grant>, clobbered: seq<bool>,
                outputs: nat, i: nat, e: Error)
    requires RefsOk(ops, |ops|, outputs) && AllocOk(ops, regs, grants, clobbered, outputs)
    requires IsOrder(order, |ops|) && IsSorted(ops, order)
    requires i < |order| && order[i] < |ops| && GrantedFirst(ops, order, grants, i) && ops[order[i]].refIndex < 0
    requires var op := ops[order[i]];
             var at := Stop(op, order[i] < outputs, regs, 0);
             && (e == BadModifier <==> at < |op.constraint| && op.constraint[at] in "+&")
             && (e == BadModifier || e == Unsatisfied) && !(at < |op.constraint| && IsLetter(op.constraint[at]))
    ensures AllocError(ops, regs, order, grants, clobbered, outputs, i, e)
  {
    hide RefsOk, AllocOk, IsOrder, IsSorted, IsLetter;
  }

  /** An operand needs an output register and none is free. */
  predicate NoOutReg(ops: seq<Operand>, regs: seq<Use>) {
    (exists k :: 0 <= k < |ops| && NeedsOutReg(ops[k])) && forall r :: 0 <= r < REGS ==> !IsFree(regs, r, OUT)
  }

  /** Every error has its reason in the state it leaves. */
  ghost predicate Justified(ops: seq<Operand>, regs: seq<Use>, order: seq<nat>, grants: map<nat, Grant>, clobbered: seq<bool>,
                            outputs: nat, e: Error)
  {
    match e
    case NoOutputRegister => RefsOk(ops, |ops|, outputs) && AllocOk(ops, regs, grants, clobbered, outputs) && NoOutReg(ops, regs)
    case _ => (exists i :: RefError(ops, i, outputs, e)) || (exists i :: AllocError(ops, regs, order, grants, clobbered, outputs, i, e))
  }

  predicate NeedsOutReg(op: Operand) {
    op.reg >= 0 && op.place.FramePointer? && !op.isMemory
  }

  /** -1 when no operand needs one, else the lowest register no output has. */
  predicate OutRegOk(ops: seq<Operand>, regs: seq<Use>, outReg: int) {
    if exists k :: 0 <= k < |ops| && NeedsOutReg(ops[k]) then
      0 <= outReg < REGS && IsFree(regs, outReg, OUT) && forall r :: 0 <= r < outReg ==> !IsFree(regs, r, OUT)
    else outReg == -1
  }

  lemma OrderFacts(order: seq<nat>, n: nat, i: nat)
    requires IsOrder(order, n) && i < n
    ensures |order| == n && order[i] < n && order[i] !in order[..i]
  {
  }

  /** Exactly the operands visited so far that are not references have grants. */
  ghost predicate GrantedFirst(ops: seq<Operand>, order: seq<nat>, grants: map<nat, Grant>, i: nat) {
    i <= |order| && forall p :: p in grants <==> p in order[..i] && 0 <= p < |ops| && ops[p].refIndex < 0
  }

  lemma OneOperand(ops: seq<Operand>, regs: seq<Use>, grants: map<nat, Grant>, clobbered: seq<bool>, outputs: nat,
                   order: seq<nat>, i: nat, j: nat)
    requires RefsOk(ops, |ops|, outputs) && AllocOk(ops, regs, grants, clobbered, outputs)
    requires j < |ops| && GrantedFirst(ops, order, grants, i) && j !in order[..i]
    ensures j !in grants && ops[j].inputIndex < |ops| && |regs| == REGS
  {
    assert InputOk(ops, j, |ops|);
  }

  lemma TiedSame(start: seq<Operand>, ops: seq<Operand>, p: nat, op: Operand, order: seq<nat>)
    requires SameSource(start, ops) && p < |ops| && op.inputIndex < |ops| && IsSorted(ops, order)
    requires op.constraint == ops[p].constraint && op.name == ops[p].name && op.place == ops[p].place
    requires op.priority == ops[p].priority
    ensures SameSource(start, WithTied(ops, p, op)) && IsSorted(WithTied(ops, p, op), order)
  {
    var after := WithTied(ops, p, op);
    forall a, b | 0 <= a < b < |order| ensures InOrder(after, order[a], order[b]) {
      assert InOrder(ops, order[a], order[b]);
    }
  }

  lemma GrantedStep(ops: seq<Operand>, after: seq<Operand>, order: seq<nat>, grants: map<nat, Grant>, i: nat, j: nat, g: Grant)
    requires GrantedFirst(ops, order, grants, i) && i < |order| && order[i] == j < |ops| && ops[j].refIndex < 0
    requires |after| == |ops| && forall k :: 0 <= k < |ops| ==> after[k].refIndex == ops[k].refIndex
    ensures GrantedFirst(after, order, grants[j := g], i + 1)
  {
    assert order[..i + 1] == order[..i] + [j];
  }

  lemma GrantedSkip(ops: seq<Operand>, order: seq<nat>, grants: map<nat, Grant>, i: nat)
    requires GrantedFirst(ops, order, grants, i) && i < |order| && order[i] < |ops| && ops[order[i]].refIndex >= 0
    ensures GrantedFirst(ops, order, grants, i + 1)
  {
    assert order[..i + 1] == order[..i] + [order[i]];
  }

  lemma AllGranted(ops: seq<Operand>, order: seq<nat>, grants: map<nat, Grant>)
    requires GrantedFirst(ops, order, grants, |ops|) && IsOrder(order, |ops|)
    ensures forall p :: p in grants <==> 0 <= p < |ops| && ops[p].refIndex < 0
  {
    assert order[..|ops|] == order;
    forall p | 0 <= p < |ops| ensures p in order {
      Everyone(order, |ops|, p);
    }
  }

  /** Distinct numbers below `n`, `n` of them, leave none out. */
  lemma Everyone(order: seq<nat>, n: nat, p: nat)
    requires IsOrder(order, n) && p < n
    ensures p in order
  {
    NumbersHas(n);
    SameSize(Image(order, n), Numbers(n));
    assert p in Numbers(n);
  }

  function Numbers(n: nat): (s: set<nat>)
    ensures |s| == n && forall x :: x in s ==> x < n
  {
    if n == 0 then {} else Numbers(n - 1) + {n - 1}
  }

  lemma {:induction false} NumbersHas(n: nat)
    ensures forall x: nat :: x in Numbers(n) <==> x < n
  {
    if n > 0 {
      NumbersHas(n - 1);
    }
  }

  function Image(order: seq<nat>, n: nat): (s: set<nat>)
    requires n <= |order| && forall a, b :: 0 <= a < b < n ==> order[a] != order[b]
    ensures |s| == n && forall x :: x in s <==> x in order[..n]
  {
    if n == 0 then {} else
    assert order[..n] == order[..n - 1] + [order[n - 1]];
    Image(order, n - 1) + {order[n - 1]}
  }

  lemma SameSize(a: set<nat>, b: set<nat>)
    requires a <= b && |a| == |b|
    ensures a == b
  {
    assert |b - a| == |b| - |a|;
  }

  /** Every operand that is not a reference has been through the switch. */
  ghost predicate Finished(ops: seq<Operand>, grants: map<nat, Grant>) {
    forall p :: p in grants <==> 0 <= p < |ops| && ops[p].refIndex < 0
  }
}
