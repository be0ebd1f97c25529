/** What the runs of asm_compute_constraints mean for the operands, in terms of what it was given (i386-asm.c). */
module AsmSafety {
  import opened AsmAllocation
  import opened AsmConstraints
  import opened Options

  /** The registers an operand occupies: the second one of a double is edx. */
  function Occupied(op: Operand): set<int> {
    if op.reg < 0 then {} else if op.isLlong && !op.isMemory then {op.reg, 2} else {op.reg}
  }

  /** The operand whose register this one has: the one it refers to, or itself. */
  function Holder(ops: seq<Operand>, i: nat): int
    requires i < |ops|
  {
    if ops[i].refIndex >= 0 then ops[i].refIndex else i
  }

  /** What the register serves for. */
  function UseOf(ops: seq<Operand>, grants: map<nat, Grant>, i: nat): Use
    requires i < |ops|
  {
    var k := Holder(ops, i);
    if k in grants then grants[k].mask else FREE
  }

  /** A double-register flag left over from before, handed to an input tied to a memory operand. */
  predicate Stale(ops: seq<Operand>, i: nat)
    requires i < |ops|
  {
    0 <= ops[i].refIndex < |ops| && ops[i].reg >= 0 && ops[i].isLlong && ops[ops[i].refIndex].isMemory
  }

  lemma UseIsBoth(op: Operand, output: bool, g: Grant, regs: seq<Use>, clobbered: seq<bool>)
    requires GrantOk(op, output, g, regs, clobbered) && op.reg >= 0
    requires TakesBoth(op.constraint) || op.inputIndex >= 0
    ensures g.mask == if op.isMemory then IN else BOTH
  {
    hide TakesBoth, Reserved, Allows;
    if TakesBoth(op.constraint) && !op.isMemory {
      TakesBothMask(op, output, g);
    }
  }

  lemma UseIsSome(op: Operand, output: bool, g: Grant, regs: seq<Use>, clobbered: seq<bool>)
    requires GrantOk(op, output, g, regs, clobbered)
    ensures g.mask.inp || g.mask.out
  {
    hide Reserved, Allows;
  }

  /** What an operand occupies is in the grant of its holder. */
  lemma OccupiedIsHeld(ops: seq<Operand>, regs: seq<Use>, grants: map<nat, Grant>, clobbered: seq<bool>, outputs: nat, i: nat)
    requires AllocOk(ops, regs, grants, clobbered, outputs) && Finished(ops, grants) && RefsOk(ops, |ops|, outputs)
    requires i < |ops| && !Stale(ops, i)
    ensures 0 <= Holder(ops, i) < |ops|
    ensures Occupied(ops[i]) != {} ==> Holder(ops, i) in grants
    ensures forall r :: r in Occupied(ops[i]) ==> r in grants[Holder(ops, i)].regs && 0 <= r < REGS && !Reserved(clobbered, r)
  {
    hide Reserved, MeetsConstraint, OnlyHeld, IsReference, IsPriority, SkipModifiers, FindConstraint;
    assert RefOk(ops, i, outputs) && TiedOk(ops, grants, i);
    var k := Holder(ops, i);
    if k in grants {
      assert GrantOk(ops[k], k < outputs, grants[k], regs, clobbered);
    }
  }

  lemma HoldersApart(ops: seq<Operand>, regs: seq<Use>, grants: map<nat, Grant>, clobbered: seq<bool>, outputs: nat, i: nat, j: nat)
    requires AllocOk(ops, regs, grants, clobbered, outputs) && Finished(ops, grants) && RefsOk(ops, |ops|, outputs)
    requires i < |ops| && j < |ops| && Holder(ops, i) != Holder(ops, j) && !Stale(ops, i) && !Stale(ops, j)
    ensures forall r :: r in Occupied(ops[i]) ==> 0 <= r < REGS && !Reserved(clobbered, r)
    ensures Meets(UseOf(ops, grants, i), UseOf(ops, grants, j)) ==> Occupied(ops[i]) !! Occupied(ops[j])
  {
    hide Reserved, GrantOk, OnlyHeld, RefsOk;
    OccupiedIsHeld(ops, regs, grants, clobbered, outputs, i);
    OccupiedIsHeld(ops, regs, grants, clobbered, outputs, j);
    var p, q := Holder(ops, i), Holder(ops, j);
    if p in grants && q in grants {
      assert NoClash(grants[p], grants[q]);
    }
  }

  // ---------------------------------------------------------------- what a caller can check beforehand

  /** The run succeeds. */
  predicate Accepted(start: seq<Operand>, outputs: nat, clobbered: seq<bool>) {
    outputs <= |start| && |clobbered| == REGS && RunOf(start, outputs, clobbered).error.None?
  }

  predicate IsTied(op: Operand) {
    IsReference(SkipModifiers(op.constraint))
  }

  /** The operand a tied input names, every other operand itself. */
  function Named(start: seq<Operand>, i: nat): int
    requires i < |start|
  {
    if IsTied(start[i]) then FindConstraint(start, SkipModifiers(start[i].constraint)) else i
  }

  /** The operand can be given a register for its address: its pointer is in the frame and a letter allows memory. */
  predicate MayHoldAddress(op: Operand, output: bool) {
    op.place.FramePointer? && exists k :: 0 <= k < |op.constraint| && (op.constraint[k] == 'm' || (output && op.constraint[k] == 'g'))
  }

  /** The operand is not tied to one that may hold an address and comes with its double-register flag set. */
  predicate FlagClear(start: seq<Operand>, outputs: nat, i: nat)
    requires i < |start|
  {
    var k := Named(start, i);
    IsTied(start[i]) && 0 <= k < |start| && MayHoldAddress(start[k], k < outputs) ==> !start[k].isLlong
  }

  /** The references a run finds are those in the strings. */
  lemma RunFindsNamed(start: seq<Operand>, outputs: nat, clobbered: seq<bool>, i: nat)
    requires Accepted(start, outputs, clobbered) && i < |start|
    ensures var ops := RunOf(start, outputs, clobbered).ops;
            && |ops| == |start| && Holder(ops, i) == Named(start, i) && 0 <= Named(start, i) <= i
            && (ops[i].refIndex >= 0 <==> IsTied(start[i])) && (IsTied(start[i]) ==> 0 <= Named(start, i) < i)
            && ops[i].constraint == start[i].constraint && ops[i].place == start[i].place
            && (IsTied(start[i]) ==> ops[Named(start, i)].inputIndex == i)
  {
    hide IsReference, SkipModifiers, FindConstraint, IsPriority, AllocOk, RunOf;
    RunIsSound(start, outputs, clobbered);
    var ops := RunOf(start, outputs, clobbered).ops;
    FindSame(start, ops, SkipModifiers(start[i].constraint));
    assert RefOk(ops, i, outputs);
  }

  lemma AddressHolder(op: Operand, output: bool, g: Grant, regs: seq<Use>, clobbered: seq<bool>)
    requires GrantOk(op, output, g, regs, clobbered) && op.isMemory
    ensures MayHoldAddress(op, output)
  {
    hide LetterPriority, MaskAt;
    var at :| 0 <= at < |op.constraint| && GrantedAt(op, output, g, at);
    assert op.constraint[at] == 'm' || (output && op.constraint[at] == 'g');
  }

  lemma ClearIsNotStale(start: seq<Operand>, outputs: nat, clobbered: seq<bool>, i: nat)
    requires Accepted(start, outputs, clobbered) && i < |start| && FlagClear(start, outputs, i)
    ensures |RunOf(start, outputs, clobbered).ops| == |start| && !Stale(RunOf(start, outputs, clobbered).ops, i)
  {
    hide IsReference, SkipModifiers, FindConstraint, RefsOk, NoClash, OnlyHeld, ReservedTaken, RunOf, MayHoldAddress;
    RunIsSound(start, outputs, clobbered);
    RunFindsNamed(start, outputs, clobbered, i);
    var run := RunOf(start, outputs, clobbered);
    var k := Named(start, i);
    if Stale(run.ops, i) {
      assert TiedOk(run.ops, run.grants, i);
      RunFindsNamed(start, outputs, clobbered, k);
      assert TiedOk(run.ops, run.grants, k);
      AddressHolder(run.ops[k], k < outputs, run.grants[k], run.regs, clobbered);
      SamePlace(start[k], run.ops[k], k < outputs);
    }
  }

  // ---------------------------------------------------------------- who may share a register

  /** No operand has esp, ebp or a clobbered register, and operands whose uses meet have no register in common. */
  lemma RegistersAreSafe(start: seq<Operand>, outputs: nat, clobbered: seq<bool>, i: nat, j: nat)
    requires Accepted(start, outputs, clobbered) && i < |start| && j < |start| && Named(start, i) != Named(start, j)
    requires FlagClear(start, outputs, i) && FlagClear(start, outputs, j)
    ensures var run := RunOf(start, outputs, clobbered);
            && |run.ops| == |start|
            && (forall r :: r in Occupied(run.ops[i]) ==> 0 <= r < REGS && !Reserved(clobbered, r))
            && (Meets(UseOf(run.ops, run.grants, i), UseOf(run.ops, run.grants, j)) ==> Occupied(run.ops[i]) !! Occupied(run.ops[j]))
  {
    hide Reserved, GrantOk, OnlyHeld, RefsOk, RunOf, Named, FlagClear, Occupied;
    RunIsSound(start, outputs, clobbered);
    var run := RunOf(start, outputs, clobbered);
    forall k | k in {i, j} ensures |run.ops| == |start| && Holder(run.ops, k) == Named(start, k) && !Stale(run.ops, k) {
      RunFindsNamed(start, outputs, clobbered, k);
      ClearIsNotStale(start, outputs, clobbered, k);
    }
    HoldersApart(run.ops, run.regs, run.grants, clobbered, outputs, i, j);
  }

  /** The operand's register serves both ways: an early clobber, a read-write output, or an operand with a tied input. */
  predicate ServesBoth(start: seq<Operand>, p: nat)
    requires p < |start|
  {
    TakesBoth(start[p].constraint) || exists t :: 0 <= t < |start| && t != p && Named(start, t) == p
  }

  /** Such an operand shares no register with another, except that its address may stand where an output goes later. */
  lemma BothIsAlone(start: seq<Operand>, outputs: nat, clobbered: seq<bool>, p: nat, j: nat)
    requires Accepted(start, outputs, clobbered) && p < |start| && j < |start|
    requires !IsTied(start[p]) && ServesBoth(start, p) && Named(start, j) != p && FlagClear(start, outputs, j)
    ensures var run := RunOf(start, outputs, clobbered);
            && |run.ops| == |start|
            && (Occupied(run.ops[p]) !! Occupied(run.ops[j])
                || (MayHoldAddress(start[p], p < outputs) && UseOf(run.ops, run.grants, j) == OUT))
  {
    hide Reserved, GrantOk, OnlyHeld, RefsOk, TakesBoth, RunOf, MayHoldAddress, FlagClear, IsTied, ServesBoth;
    RunIsSound(start, outputs, clobbered);
    var run := RunOf(start, outputs, clobbered);
    RunFindsNamed(start, outputs, clobbered, p);
    RunFindsNamed(start, outputs, clobbered, j);
    ClearIsNotStale(start, outputs, clobbered, j);
    assert FlagClear(start, outputs, p) by { UntiedIsClear(start, outputs, p); }
    ClearIsNotStale(start, outputs, clobbered, p);
    ServesBothFound(start, outputs, clobbered, p);
    if Occupied(run.ops[p]) != {} && Occupied(run.ops[j]) != {} {
      OccupiedIsHeld(run.ops, run.regs, run.grants, clobbered, outputs, p);
      OccupiedIsHeld(run.ops, run.regs, run.grants, clobbered, outputs, j);
      var q := Holder(run.ops, j);
      UseIsBoth(run.ops[p], p < outputs, run.grants[p], run.regs, clobbered);
      UseIsSome(run.ops[q], q < outputs, run.grants[q], run.regs, clobbered);
      if run.ops[p].isMemory {
        AddressHolder(run.ops[p], p < outputs, run.grants[p], run.regs, clobbered);
        SamePlace(start[p], run.ops[p], p < outputs);
      }
      RegistersAreSafe(start, outputs, clobbered, p, j);
    }
  }

  lemma UntiedIsClear(start: seq<Operand>, outputs: nat, p: nat)
    requires p < |start| && !IsTied(start[p])
    ensures FlagClear(start, outputs, p)
  {
  }

  lemma SamePlace(a: Operand, b: Operand, output: bool)
    requires a.place == b.place && a.constraint == b.constraint
    ensures MayHoldAddress(a, output) == MayHoldAddress(b, output)
  {
  }

  lemma ServesBothFound(start: seq<Operand>, outputs: nat, clobbered: seq<bool>, p: nat)
    requires Accepted(start, outputs, clobbered) && p < |start| && ServesBoth(start, p)
    ensures var ops := RunOf(start, outputs, clobbered).ops;
            |ops| == |start| && ops[p].constraint == start[p].constraint && (TakesBoth(ops[p].constraint) || ops[p].inputIndex >= 0)
  {
    hide TakesBoth, RunOf, IsReference, SkipModifiers, FindConstraint;
    RunFindsNamed(start, outputs, clobbered, p);
    if !TakesBoth(start[p].constraint) {
      var t :| 0 <= t < |start| && t != p && Named(start, t) == p;
      RunFindsNamed(start, outputs, clobbered, t);
    }
  }

  // ---------------------------------------------------------------- tied inputs

  /** A tied input has its operand's register when that operand is not tied itself, and none otherwise. */
  lemma TiedGets(start: seq<Operand>, outputs: nat, clobbered: seq<bool>, i: nat)
    requires Accepted(start, outputs, clobbered) && i < |start| && IsTied(start[i])
    ensures var k, ops := Named(start, i), RunOf(start, outputs, clobbered).ops;
            |ops| == |start| && 0 <= k < i && ops[i].reg == if IsTied(start[k]) then -1 else ops[k].reg
  {
    hide GrantOk, NoClash, ReservedTaken, OnlyHeld, IsReference, IsPriority, SkipModifiers, FindConstraint, RunOf, RefsOk;
    RunIsSound(start, outputs, clobbered);
    RunFindsNamed(start, outputs, clobbered, i);
    RunFindsNamed(start, outputs, clobbered, Named(start, i));
    var run := RunOf(start, outputs, clobbered);
    assert TiedOk(run.ops, run.grants, i);
  }

  /** And then it occupies exactly what its operand does, if the flag is clear. */
  lemma TiedOccupies(start: seq<Operand>, outputs: nat, clobbered: seq<bool>, i: nat)
    requires Accepted(start, outputs, clobbered) && i < |start| && IsTied(start[i]) && FlagClear(start, outputs, i)
    ensures var k, ops := Named(start, i), RunOf(start, outputs, clobbered).ops;
            |ops| == |start| && 0 <= k < i && Occupied(ops[i]) == if IsTied(start[k]) then {} else Occupied(ops[k])
  {
    hide GrantOk, NoClash, ReservedTaken, OnlyHeld, IsReference, IsPriority, SkipModifiers, FindConstraint, RunOf, RefsOk, FlagClear;
    RunIsSound(start, outputs, clobbered);
    TiedGets(start, outputs, clobbered, i);
    RunFindsNamed(start, outputs, clobbered, i);
    RunFindsNamed(start, outputs, clobbered, Named(start, i));
    ClearIsNotStale(start, outputs, clobbered, i);
    var run := RunOf(start, outputs, clobbered);
    assert TiedOk(run.ops, run.grants, i);
  }

  // ---------------------------------------------------------------- the percent modifier

  /** A percent sign among the leading modifiers. */
  predicate HasPercent(s: string) {
    exists k :: 0 <= k < |s| && s[k] == '%' && forall h :: 0 <= h < k ==> IsModifier(s[h])
  }

  /** It is skipped where references and priorities are worked out and refused where the operand is allocated. */
  lemma PercentIsRefused(start: seq<Operand>, outputs: nat, clobbered: seq<bool>, i: nat)
    requires i < |start| && !IsTied(start[i]) && HasPercent(start[i].constraint)
    ensures !Accepted(start, outputs, clobbered)
  {
    hide NoClash, ReservedTaken, OnlyHeld, IsTied, RunOf, RefsOk, HasPercent;
    if Accepted(start, outputs, clobbered) {
      RunIsSound(start, outputs, clobbered);
      RunFindsNamed(start, outputs, clobbered, i);
      var run := RunOf(start, outputs, clobbered);
      PercentGetsNothing(run.ops[i], i < outputs, run.grants[i], run.regs, clobbered);
    }
  }

  lemma PercentGetsNothing(op: Operand, output: bool, g: Grant, regs: seq<Use>, clobbered: seq<bool>)
    requires GrantOk(op, output, g, regs, clobbered)
    ensures !HasPercent(op.constraint)
  {
    hide Allows, MaskAt;
    var at :| 0 <= at < |op.constraint| && GrantedAt(op, output, g, at);
    ModifierGetsNothing(op.constraint[at], op.place, output, g);
  }
}
