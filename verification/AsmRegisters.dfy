/** Operands that ask for one named register, as in system calls: which register they hold, and when such a run succeeds. */
module AsmRegisters {
  import opened AsmAllocation
  import opened AsmConstraints
  import opened AsmSafety
  import opened Options

  /** The string holds this letter and nothing else but modifiers. */
  predicate OnlyLetter(s: string, c: char) {
    c in s && forall k :: 0 <= k < |s| ==> s[k] == c || IsModifier(s[k])
  }

  lemma {:induction false} SkipToLetter(s: string, c: char)
    requires OnlyLetter(s, c) && !IsModifier(c)
    ensures SkipModifiers(s) != [] && SkipModifiers(s)[0] == c
    ensures forall k :: 0 <= k < |SkipModifiers(s)| ==> SkipModifiers(s)[k] in s
    decreases |s|
  {
    if IsModifier(s[0]) {
      assert s == [s[0]] + s[1..];
      SkipToLetter(s[1..], c);
    }
  }

  lemma LettersAreNot(c: char)
    requires c == 'A' || Meant(c).Some?
    ensures !IsModifier(c) && !IsDigit(c) && c != '['
  {
  }

  lemma UntiedLetter(op: Operand, c: char)
    requires OnlyLetter(op.constraint, c) && (c == 'A' || Meant(c).Some?)
    ensures !IsTied(op)
  {
    LettersAreNot(c);
    SkipToLetter(op.constraint, c);
  }

  /** The grant of such an operand is what its letter allows, for the use of an input or an output without further modifiers. */
  lemma GrantByLetter(op: Operand, output: bool, g: Grant, c: char)
    requires MeetsConstraint(op, output, g) && OnlyLetter(op.constraint, c) && (c == 'A' || Meant(c).Some?)
    ensures Allows(c, op.place, output, g)
    ensures op.inputIndex < 0 && !g.memory && '+' !in op.constraint && '&' !in op.constraint ==> g.mask == if output then OUT else IN
  {
    hide Allows, LetterPriority;
    var at :| 0 <= at < |op.constraint| && GrantedAt(op, output, g, at);
    ModifierGetsNothing(op.constraint[at], op.place, output, g);
    assert op.constraint[at] == c;
  }

  /**
   * In every successful run an operand whose only letter is a, b, c, d, S or D holds eax, ebx, ecx, edx, esi or edi, and one
   * whose only letter is A holds eax and edx.
   */
  lemma LetterGetsItsRegister(start: seq<Operand>, outputs: nat, clobbered: seq<bool>, i: nat, c: char)
    requires Accepted(start, outputs, clobbered) && i < |start| && OnlyLetter(start[i].constraint, c)
    ensures |RunOf(start, outputs, clobbered).ops| == |start|
    ensures var op := RunOf(start, outputs, clobbered).ops[i];
            && (c == 'a' ==> Occupied(op) == {Code(Eax)}) && (c == 'b' ==> Occupied(op) == {Code(Ebx)})
            && (c == 'c' ==> Occupied(op) == {Code(Ecx)}) && (c == 'd' ==> Occupied(op) == {Code(Edx)})
            && (c == 'S' ==> Occupied(op) == {Code(Esi)}) && (c == 'D' ==> Occupied(op) == {Code(Edi)})
            && (c == 'A' ==> Occupied(op) == {Code(Eax), Code(Edx)})
            && (c in "AabcdSD" ==> !op.isMemory)
  {
    hide RunOf, NoClash, ReservedTaken, OnlyHeld, RefsOk, IsReference, SkipModifiers, FindConstraint, TiedOk;
    RunIsSound(start, outputs, clobbered);
    var run := RunOf(start, outputs, clobbered);
    if c in "AabcdSD" {
      UntiedLetter(start[i], c);
      RunFindsNamed(start, outputs, clobbered, i);
      GrantByLetter(run.ops[i], i < outputs, run.grants[i], c);
      LetterOccupies(run.ops[i], i < outputs, run.grants[i], run.regs, clobbered, c);
    }
  }

  lemma LetterOccupies(op: Operand, output: bool, g: Grant, regs: seq<Use>, clobbered: seq<bool>, c: char)
    requires GrantOk(op, output, g, regs, clobbered) && Allows(c, op.place, output, g) && (c == 'A' || Meant(c).Some?)
    ensures !op.isMemory && Occupied(op) == g.regs == if c == 'A' then {Code(Eax), Code(Edx)} else {Code(Meant(c).value)}
  {
    hide MeetsConstraint, Reserved;
    Codes();
    if c == 'A' {
      assert 2 in g.regs && 0 in g.regs;
    }
  }

  // ---------------------------------------------------------------- named registers come first

  /** Every letter names a register, or the pair. */
  predicate NamesOnly(s: string) {
    forall k :: 0 <= k < |s| ==> s[k] in "AabcdSD" || IsModifier(s[k])
  }

  lemma {:induction false} SkipKeepsLetters(s: string)
    ensures forall k :: 0 <= k < |s| && !IsModifier(s[k]) ==> s[k] in SkipModifiers(s)
    decreases |s|
  {
    if s != [] && IsModifier(s[0]) {
      SkipKeepsLetters(s[1..]);
      forall k | 0 <= k < |s| && !IsModifier(s[k])
        ensures s[k] in SkipModifiers(s)
      {
        assert s[k] == s[1..][k - 1];
      }
    }
  }

  /** The priority of a string with one named register. */
  lemma NamedPriority(s: string, c: char, p: int)
    requires OnlyLetter(s, c) && Meant(c).Some? && IsPriority(SkipModifiers(s), p)
    ensures p <= 1
  {
    hide SkipModifiers;
    LettersAreNot(c);
    SkipToLetter(s, c);
    if p > 0 {
      var t := SkipModifiers(s);
      var k :| 0 <= k < |t| && LetterPriority(t[k]) == p;
      assert t[k] in s;
    }
  }

  lemma LowPriorityNames(s: string, p: int)
    requires IsPriority(SkipModifiers(s), p) && p <= 1
    ensures NamesOnly(s)
  {
    hide SkipModifiers;
    SkipKeepsLetters(s);
    forall k | 0 <= k < |s| && !IsModifier(s[k])
      ensures s[k] in "AabcdSD"
    {
      var t := SkipModifiers(s);
      var h :| 0 <= h < |t| && t[h] == s[k];
      assert 0 <= LetterPriority(t[h]) <= 1;
    }
  }

  /** The named letter and the modifiers every operand may have. */
  predicate PlainLetter(s: string, c: char) {
    c in s && forall k :: 0 <= k < |s| ==> s[k] == c || s[k] == '='
  }

  lemma PlainMask(op: Operand, output: bool, c: char, k: nat)
    requires PlainLetter(op.constraint, c) && Meant(c).Some?
    ensures MaskAt(op, output, k) == Role(op, output)
  {
  }

  lemma NamedTry(c: char, op: Operand, output: bool, regs: seq<Use>, mask: Use)
    requires |regs| == REGS && Meant(c).Some? && Try(c, op, output, regs, mask).None?
    ensures Meets(regs[Code(Meant(c).value)], mask)
  {
    hide Meets;
    Codes();
  }

  /** When the scan of a plain string finds nothing, its register is taken for the use. */
  lemma NothingFound(op: Operand, output: bool, regs: seq<Use>, c: char)
    requires |regs| == REGS && PlainLetter(op.constraint, c) && Meant(c).Some?
    requires Stop(op, output, regs, 0) == |op.constraint|
    ensures Meets(regs[Code(Meant(c).value)], Role(op, output))
  {
    hide Meets, Try, MaskAt, LetterPriority, Code;
    var k :| 0 <= k < |op.constraint| && op.constraint[k] == c;
    PlainMask(op, output, c, k);
    LettersAreNot(c);
    assert Passes(op, output, regs, k);
    NamedTry(c, op, output, regs, Role(op, output));
  }

  /** A named register is refused only when it is clobbered, or held for a use that meets by an operand granted earlier that asks
      for named registers itself: operands that would take any register come later. */
  lemma NamedIsNotStarved(ops: seq<Operand>, regs: seq<Use>, order: seq<nat>, grants: map<nat, Grant>, clobbered: seq<bool>,
                          outputs: nat, i: nat, e: Error, c: char) returns (p: int)
    requires AllocError(ops, regs, order, grants, clobbered, outputs, i, e) && |clobbered| == REGS
    requires PlainLetter(ops[order[i]].constraint, c) && Meant(c).Some?
    ensures e == Unsatisfied
    ensures var op, r := ops[order[i]], Code(Meant(c).value);
            clobbered[r] || (p in grants && p in order[..i] && 0 <= p < |ops| && r in grants[p].regs
                             && Meets(grants[p].mask, Role(op, order[i] < outputs)) && NamesOnly(ops[p].constraint))
  {
    hide GrantOk, NoClash, TiedOk, IsPriority, SkipModifiers, FindConstraint, IsReference, Meets, Stop;
    Codes();
    var op, r := ops[order[i]], Code(Meant(c).value);
    StopsAtLetterOnly(op, order[i] < outputs, regs, c);
    NothingFound(op, order[i] < outputs, regs, c);
    p := -1;
    if !clobbered[r] {
      assert HeldFor(grants, r, Role(op, order[i] < outputs));
      p :| p in grants && r in grants[p].regs && Meets(grants[p].mask, Role(op, order[i] < outputs));
      EarlierIsNamed(ops, order, outputs, i, p, c);
    }
  }

  /** A plain string never stops the scan at a modifier. */
  lemma StopsAtLetterOnly(op: Operand, output: bool, regs: seq<Use>, c: char)
    requires PlainLetter(op.constraint, c) && Meant(c).Some?
    ensures var at := Stop(op, output, regs, 0); at < |op.constraint| ==> IsLetter(op.constraint[at]) && op.constraint[at] !in "+&"
  {
    var at := Stop(op, output, regs, 0);
    if at < |op.constraint| {
      assert !Passes(op, output, regs, at);
    }
  }

  lemma EarlierIsNamed(ops: seq<Operand>, order: seq<nat>, outputs: nat, i: nat, p: int, c: char)
    requires RefsOk(ops, |ops|, outputs) && IsOrder(order, |ops|) && IsSorted(ops, order) && i < |order| && p in order[..i]
    requires 0 <= p < |ops| && ops[p].refIndex < 0 && ops[order[i]].refIndex < 0
    requires OnlyLetter(ops[order[i]].constraint, c) && Meant(c).Some?
    ensures NamesOnly(ops[p].constraint)
  {
    hide IsPriority, SkipModifiers, FindConstraint, IsReference;
    var a :| 0 <= a < i && order[a] == p;
    assert InOrder(ops, order[a], order[i]);
    assert RefOk(ops, p, outputs) && RefOk(ops, order[i], outputs);
    NamedPriority(ops[order[i]].constraint, c, ops[order[i]].priority);
    LowPriorityNames(ops[p].constraint, ops[p].priority);
  }

  // ---------------------------------------------------------------- runs of named registers only

  /** Any number of equals signs and one letter that names a register. */
  predicate IsPlain(s: string) {
    s != [] && Meant(s[|s| - 1]).Some? && forall k :: 0 <= k < |s| - 1 ==> s[k] == '='
  }

  ghost predicate AllPlain(start: seq<Operand>) {
    forall i :: 0 <= i < |start| ==> IsPlain(start[i].constraint)
  }

  /** The register a plain operand asks for. */
  function Wanted(op: Operand): (r: nat)
    requires IsPlain(op.constraint)
    ensures r < REGS
  {
    Code(Meant(op.constraint[|op.constraint| - 1]).value)
  }

  /** Both are outputs, or both are inputs. */
  predicate SameSide(i: nat, j: nat, outputs: nat) {
    i < outputs <==> j < outputs
  }

  /** An output asks for the register, or no operand can have it. */
  predicate NotForOutput(start: seq<Operand>, outputs: nat, clobbered: seq<bool>, r: nat)
    requires AllPlain(start) && outputs <= |start|
  {
    r == Code(Esp) || r == Code(Ebp) || (r < |clobbered| && clobbered[r]) || exists i :: 0 <= i < outputs && Wanted(start[i]) == r
  }

  /** A C value lies behind a pointer in the frame and no register is left to load that pointer into. */
  ghost predicate NoReload(start: seq<Operand>, outputs: nat, clobbered: seq<bool>)
    requires AllPlain(start) && outputs <= |start|
  {
    (exists k :: 0 <= k < |start| && start[k].place.FramePointer?) && forall r :: 0 <= r < 8 ==> NotForOutput(start, outputs, clobbered, r)
  }

  ghost predicate Servable(start: seq<Operand>, outputs: nat, clobbered: seq<bool>)
    requires AllPlain(start) && outputs <= |start| && |clobbered| == REGS
  {
    && (forall i :: 0 <= i < |start| ==> !clobbered[Wanted(start[i])])
    && (forall i, j {:trigger Wanted(start[i]), Wanted(start[j])} :: 0 <= i < j < |start| && SameSide(i, j, outputs) ==>
                                                                        Wanted(start[i]) != Wanted(start[j]))
    && !NoReload(start, outputs, clobbered)
  }

  lemma PlainFacts(op: Operand)
    requires IsPlain(op.constraint)
    ensures Wanted(op) < REGS && Wanted(op) != ESP && Wanted(op) != EBP
    ensures OnlyLetter(op.constraint, op.constraint[|op.constraint| - 1]) && Meant(op.constraint[|op.constraint| - 1]).Some?
    ensures '+' !in op.constraint && '&' !in op.constraint
    ensures !IsTied(op)
  {
    Codes();
    UntiedLetter(op, op.constraint[|op.constraint| - 1]);
  }

  /** A granted plain operand has its register, for the use of its side. */
  lemma PlainGrant(op: Operand, output: bool, g: Grant, regs: seq<Use>, clobbered: seq<bool>)
    requires IsPlain(op.constraint) && GrantOk(op, output, g, regs, clobbered) && op.inputIndex < 0
    ensures g.regs == {Wanted(op)} && !g.memory && g.mask == if output then OUT else IN
    ensures op.reg == Wanted(op) && !op.isMemory && !Reserved(clobbered, Wanted(op)) && Covers(regs[Wanted(op)], g.mask)
  {
    hide MeetsConstraint, Allows, Reserved, Covers;
    PlainFacts(op);
    var c := op.constraint[|op.constraint| - 1];
    GrantByLetter(op, output, g, c);
    LetterOccupies(op, output, g, regs, clobbered, c);
    LetterNotMemory(op, output, g, c);
  }

  lemma LetterNotMemory(op: Operand, output: bool, g: Grant, c: char)
    requires Allows(c, op.place, output, g) && Meant(c).Some?
    ensures !g.memory && g.regs == {Code(Meant(c).value)}
  {
  }

  /** Without references no operand has a tied input. */
  lemma NothingTied(start: seq<Operand>, ops: seq<Operand>, outputs: nat)
    requires SameSource(start, ops) && AllPlain(start) && RefsOk(ops, |ops|, outputs)
    ensures forall i :: 0 <= i < |ops| ==> IsPlain(ops[i].constraint) && ops[i].refIndex < 0 && ops[i].inputIndex < 0
    ensures forall i :: 0 <= i < |ops| ==> Wanted(ops[i]) == Wanted(start[i])
  {
    hide IsPriority, SkipModifiers, FindConstraint, IsReference;
    forall i | 0 <= i < |ops|
      ensures IsPlain(ops[i].constraint) && ops[i].refIndex < 0
    {
      PlainFacts(start[i]);
      PlainFacts(ops[i]);
      assert RefOk(ops, i, outputs);
    }
    forall i | 0 <= i < |ops|
      ensures ops[i].inputIndex < 0
    {
      assert InputOk(ops, i, |ops|);
    }
  }

  /** What a plain list of operands meets when one of them is refused. */
  lemma RefusedPlain(start: seq<Operand>, ops: seq<Operand>, regs: seq<Use>, order: seq<nat>, grants: map<nat, Grant>,
                     clobbered: seq<bool>, outputs: nat, i: nat, e: Error)
    requires AllocError(ops, regs, order, grants, clobbered, outputs, i, e) && SameSource(start, ops)
    requires AllPlain(start) && outputs <= |start| && |clobbered| == REGS
    ensures !Servable(start, outputs, clobbered)
  {
    hide GrantOk, NoClash, TiedOk, ReservedTaken, IsPriority, SkipModifiers, FindConstraint, IsReference, Meets, Stop, IsPlain, OnlyHeld,
      Reserved, NoReload, IsSorted, RefOk, InputOk, PlainLetter, IsLetter, Wanted;
    NothingTied(start, ops, outputs);
    OrderFacts(order, |ops|, i);
    var j := order[i];
    PlainIs(ops[j]);
    var c := ops[j].constraint[|ops[j].constraint| - 1];
    var p := NamedIsNotStarved(ops, regs, order, grants, clobbered, outputs, i, e, c);
    if !clobbered[Wanted(ops[j])] {
      PlainGrant(ops[p], p < outputs, grants[p], regs, clobbered);
      assert Wanted(ops[p]) == Wanted(ops[j]) && p != j;
      assert SameSide(p, j, outputs) by {
        SidesMeet(p < outputs, j < outputs, ops[j]);
      }
    }
  }

  lemma PlainIs(op: Operand)
    requires IsPlain(op.constraint)
    ensures op.constraint != []
    ensures var c := op.constraint[|op.constraint| - 1];
            PlainLetter(op.constraint, c) && Meant(c).Some? && Wanted(op) == Code(Meant(c).value)
  {
  }

  lemma SidesMeet(first: bool, second: bool, op: Operand)
    requires op.inputIndex < 0 && Meets(if first then OUT else IN, Role(op, second))
    ensures first == second
  {
  }

  /** A register no plain output has, and no reserved one, is free for output. */
  lemma TakenForOutput(start: seq<Operand>, ops: seq<Operand>, regs: seq<Use>, grants: map<nat, Grant>, clobbered: seq<bool>,
                       outputs: nat, r: nat)
    requires AllocOk(ops, regs, grants, clobbered, outputs) && SameSource(start, ops) && RefsOk(ops, |ops|, outputs)
    requires AllPlain(start) && outputs <= |start| && |clobbered| == REGS && r < REGS
    ensures !IsFree(regs, r, OUT) ==> NotForOutput(start, outputs, clobbered, r)
    ensures NotForOutput(start, outputs, clobbered, r) && Finished(ops, grants) ==> !IsFree(regs, r, OUT)
  {
    hide GrantOk, NoClash, TiedOk, RefsOk, IsPlain, Wanted, Code;
    NothingTied(start, ops, outputs);
    Codes();
    if !IsFree(regs, r, OUT) && !Reserved(clobbered, r) {
      assert HeldFor(grants, r, OUT);
      var p :| p in grants && r in grants[p].regs && Meets(grants[p].mask, OUT);
      PlainGrant(ops[p], p < outputs, grants[p], regs, clobbered);
    }
    if !Reserved(clobbered, r) && NotForOutput(start, outputs, clobbered, r) && Finished(ops, grants) {
      var i :| 0 <= i < outputs && Wanted(start[i]) == r;
      PlainGrant(ops[i], true, grants[i], regs, clobbered);
    }
  }

  lemma PlainHasNoRefError(start: seq<Operand>, ops: seq<Operand>, i: nat, outputs: nat, e: Error)
    requires SameSource(start, ops) && AllPlain(start)
    ensures !RefError(ops, i, outputs, e)
  {
    hide IsPlain, FindConstraint, RefsOk;
    if RefError(ops, i, outputs, e) {
      assert IsPlain(start[i].constraint);
      PlainFacts(ops[i]);
      PlainIsKnown(ops[i].constraint);
    }
  }

  lemma PlainIsKnown(s: string)
    requires IsPlain(s)
    ensures forall j :: 0 <= j < |SkipModifiers(s)| ==> LetterPriority(SkipModifiers(s)[j]) >= 0
  {
    LettersAreNot(s[|s| - 1]);
    PlainSkips(s);
  }

  lemma {:induction false} PlainSkips(s: string)
    requires s != [] && !IsModifier(s[|s| - 1]) && forall k :: 0 <= k < |s| - 1 ==> s[k] == '='
    ensures SkipModifiers(s) == [s[|s| - 1]]
    decreases |s|
  {
    if |s| > 1 {
      PlainSkips(s[1..]);
    } else {
      assert s == [s[0]];
    }
  }

  /** A run over plain operands that stops had an operand it could not serve. */
  lemma StoppedPlain(start: seq<Operand>, outputs: nat, clobbered: seq<bool>)
    requires AllPlain(start) && outputs <= |start| && |clobbered| == REGS && RunOf(start, outputs, clobbered).error.Some?
    ensures !Servable(start, outputs, clobbered)
  {
    hide RunOf, AllPlain, RefsOk, AllocOk, AllocError, RefError, SameSource, Servable, RunOk;
    RunIsSound(start, outputs, clobbered);
    var run := RunOf(start, outputs, clobbered);
    forall i | RefError(run.ops, i, outputs, run.error.value)
      ensures false
    {
      PlainHasNoRefError(start, run.ops, i, outputs, run.error.value);
    }
    if run.error.value == NoOutputRegister {
      StoppedReload(start, run.ops, run.regs, run.grants, outputs, clobbered);
      NoReloadIsNotServable(start, outputs, clobbered);
    } else {
      var i :| AllocError(run.ops, run.regs, run.order, run.grants, clobbered, outputs, i, run.error.value);
      RefusedPlain(start, run.ops, run.regs, run.order, run.grants, clobbered, outputs, i, run.error.value);
    }
  }

  lemma NoReloadIsNotServable(start: seq<Operand>, outputs: nat, clobbered: seq<bool>)
    requires AllPlain(start) && outputs <= |start| && |clobbered| == REGS && NoReload(start, outputs, clobbered)
    ensures !Servable(start, outputs, clobbered)
  {
  }

  lemma StoppedReload(start: seq<Operand>, ops: seq<Operand>, regs: seq<Use>, grants: map<nat, Grant>, outputs: nat, clobbered: seq<bool>)
    requires AllPlain(start) && outputs <= |start| && |clobbered| == REGS && SameSource(start, ops)
    requires RefsOk(ops, |ops|, outputs) && AllocOk(ops, regs, grants, clobbered, outputs) && NoOutReg(ops, regs)
    ensures NoReload(start, outputs, clobbered)
  {
    hide AllPlain, RefsOk, AllocOk, IsFree, NotForOutput;
    var k :| 0 <= k < |ops| && NeedsOutReg(ops[k]);
    assert start[k].place.FramePointer?;
    forall r | 0 <= r < 8
      ensures NotForOutput(start, outputs, clobbered, r)
    {
      TakenForOutput(start, ops, regs, grants, clobbered, outputs, r);
    }
  }

  /** A run over plain operands that ends well has served them all. */
  lemma AcceptedPlain(start: seq<Operand>, outputs: nat, clobbered: seq<bool>)
    requires AllPlain(start) && Accepted(start, outputs, clobbered)
    ensures Servable(start, outputs, clobbered)
  {
    hide RunOf, SameSource, RefsOk, NoClash, TiedOk, OnlyHeld, ReservedTaken, GrantOk, IsPlain, Wanted, NoReload, Reserved, NoOutReg;
    RunIsSound(start, outputs, clobbered);
    var run := RunOf(start, outputs, clobbered);
    NothingTied(start, run.ops, outputs);
    Lengths(start, run.ops);
    forall i | 0 <= i < |start|
      ensures !clobbered[Wanted(start[i])]
    {
      PlainFacts(start[i]);
      PlainGrant(run.ops[i], i < outputs, run.grants[i], run.regs, clobbered);
      NotReserved(clobbered, Wanted(start[i]));
    }
    forall i, j | 0 <= i < j < |start| && SameSide(i, j, outputs)
      ensures Wanted(start[i]) != Wanted(start[j])
    {
      PlainGrant(run.ops[i], i < outputs, run.grants[i], run.regs, clobbered);
      PlainGrant(run.ops[j], j < outputs, run.grants[j], run.regs, clobbered);
      ApartBySide(run.grants[i], run.grants[j], Wanted(start[i]), Wanted(start[j]));
    }
    if NoReload(start, outputs, clobbered) {
      ReloadStops(start, run.ops, run.regs, run.grants, outputs, clobbered);
      NoErrorHasOutReg(start, outputs, clobbered);
    }
  }

  lemma Lengths(start: seq<Operand>, ops: seq<Operand>)
    requires SameSource(start, ops)
    ensures |ops| == |start|
  {
  }

  lemma NotReserved(clobbered: seq<bool>, r: nat)
    requires r < |clobbered| && !Reserved(clobbered, r)
    ensures !clobbered[r]
  {
  }

  lemma ApartBySide(g: Grant, h: Grant, r: nat, t: nat)
    requires g.regs == {r} && h.regs == {t} && NoClash(g, h) && g.mask == h.mask && (g.mask == OUT || g.mask == IN)
    ensures r != t
  {
    assert r in g.regs && t in h.regs;
  }

  lemma NoErrorHasOutReg(start: seq<Operand>, outputs: nat, clobbered: seq<bool>)
    requires RunOf(start, outputs, clobbered).error.None?
    ensures !NoOutReg(RunOf(start, outputs, clobbered).ops, RunOf(start, outputs, clobbered).regs)
  {
  }

  lemma ReloadStops(start: seq<Operand>, ops: seq<Operand>, regs: seq<Use>, grants: map<nat, Grant>, outputs: nat, clobbered: seq<bool>)
    requires AllPlain(start) && outputs <= |start| && |clobbered| == REGS && SameSource(start, ops) && Finished(ops, grants)
    requires RefsOk(ops, |ops|, outputs) && AllocOk(ops, regs, grants, clobbered, outputs) && NoReload(start, outputs, clobbered)
    ensures NoOutReg(ops, regs)
  {
    hide RefsOk, GrantOk, NoClash, TiedOk, OnlyHeld, ReservedTaken, IsPlain, IsFree, NotForOutput;
    NothingTied(start, ops, outputs);
    var k :| 0 <= k < |start| && start[k].place.FramePointer?;
    PlainGrant(ops[k], k < outputs, grants[k], regs, clobbered);
    assert NeedsOutReg(ops[k]);
    forall r | 0 <= r < REGS
      ensures !IsFree(regs, r, OUT)
    {
      TakenForOutput(start, ops, regs, grants, clobbered, outputs, r);
    }
  }

  /**
   * A list of operands that each ask for one named register, as system calls do, is accepted exactly when none of those registers
   * is clobbered, no two outputs and no two inputs ask for the same one, and an operand behind a pointer in the frame still finds
   * a register to load the pointer into.
   */
  lemma PlainAcceptedIff(start: seq<Operand>, outputs: nat, clobbered: seq<bool>)
    requires AllPlain(start) && outputs <= |start| && |clobbered| == REGS
    ensures Accepted(start, outputs, clobbered) <==> Servable(start, outputs, clobbered)
  {
    hide RunOf, AllPlain, Servable;
    if RunOf(start, outputs, clobbered).error.None? {
      AcceptedPlain(start, outputs, clobbered);
    } else {
      StoppedPlain(start, outputs, clobbered);
    }
  }

  /** The operands of a system call: the result in a, the call number in a, then up to three arguments in b, c and d. */
  predicate IsSystemCall(start: seq<Operand>) {
    && 2 <= |start| <= 5 && start[0].constraint == "=a" && start[1].constraint == "a"
    && (|start| > 2 ==> start[2].constraint == "b")
    && (|start| > 3 ==> start[3].constraint == "c")
    && (|start| > 4 ==> start[4].constraint == "d")
  }

  predicate NoneClobbered(clobbered: seq<bool>) {
    |clobbered| == REGS && forall r :: 0 <= r < REGS ==> !clobbered[r]
  }

  /** Every system call is compiled, with its number and result in eax and its arguments in ebx, ecx and edx in this order. */
  lemma SystemCallRegisters(start: seq<Operand>, clobbered: seq<bool>)
    requires IsSystemCall(start) && NoneClobbered(clobbered)
    ensures Accepted(start, 1, clobbered) && |RunOf(start, 1, clobbered).ops| == |start|
    ensures var ops := RunOf(start, 1, clobbered).ops;
            && Occupied(ops[0]) == Occupied(ops[1]) == {Code(Eax)}
            && (|start| > 2 ==> Occupied(ops[2]) == {Code(Ebx)})
            && (|start| > 3 ==> Occupied(ops[3]) == {Code(Ecx)})
            && (|start| > 4 ==> Occupied(ops[4]) == {Code(Edx)})
  {
    hide RunOf, Accepted, Occupied;
    SystemCallIsServable(start, clobbered);
    PlainAcceptedIff(start, 1, clobbered);
    LetterGetsItsRegister(start, 1, clobbered, 0, 'a');
    LetterGetsItsRegister(start, 1, clobbered, 1, 'a');
    if |start| > 2 {
      LetterGetsItsRegister(start, 1, clobbered, 2, 'b');
    }
    if |start| > 3 {
      LetterGetsItsRegister(start, 1, clobbered, 3, 'c');
    }
    if |start| > 4 {
      LetterGetsItsRegister(start, 1, clobbered, 4, 'd');
    }
  }

  lemma SystemCallIsServable(start: seq<Operand>, clobbered: seq<bool>)
    requires IsSystemCall(start) && NoneClobbered(clobbered)
    ensures AllPlain(start) && Servable(start, 1, clobbered)
  {
    Codes();
    assert !NotForOutput(start, 1, clobbered, 1);
  }
}
