/** Operand lists for which asm_compute_constraints does not do what the constraints ask, and when there are none (i386-asm.c). */
module AsmRuns {
  import opened AsmAllocation
  import opened AsmConstraints
  import opened AsmSafety
  import opened Options

  /** An operand as parsing leaves it; the double-register flag is whatever was there. */
  function Parsed(constraint: string, place: Place, isLlong: bool): Operand {
    Operand(constraint, None, place, -1, -1, 0, -1, isLlong, false, false)
  }

  const NO_CLOBBERS := [false, false, false, false, false, false, false, false]

  /** Everything before an operand's turn has been allocated. */
  ghost predicate AtTurn(ops: seq<Operand>, regs: seq<Use>, order: seq<nat>, grants: map<nat, Grant>, clobbered: seq<bool>,
                         outputs: nat, i: nat)
  {
    && RefsOk(ops, |ops|, outputs) && AllocOk(ops, regs, grants, clobbered, outputs)
    && IsOrder(order, |ops|) && IsSorted(ops, order)
    && i < |order| && order[i] < |ops| && GrantedFirst(ops, order, grants, i) && ops[order[i]].refIndex < 0
  }

  lemma NobodyHolds(regs: seq<Use>, grants: map<nat, Grant>, clobbered: seq<bool>, r: nat)
    requires OnlyHeld(regs, grants, clobbered) && r < |regs| && !Reserved(clobbered, r)
    requires forall p :: p in grants ==> r !in grants[p].regs
    ensures regs[r] == FREE
  {
    assert !HeldFor(grants, r, BOTH);
  }

  lemma StopsAtLetter(op: Operand, output: bool, regs: seq<Use>, at: nat)
    requires |op.constraint| == at + 1 && (at == 0 || (at == 1 && op.constraint[0] == '='))
    requires IsLetter(op.constraint[at]) && Try(op.constraint[at], op, output, regs, MaskAt(op, output, at)).Some?
    ensures Stop(op, output, regs, 0) == at
  {
    hide Try, IsLetter, MaskAt;
    NoLetter();
    if at == 1 {
      assert Stop(op, output, regs, 0) == Stop(op, output, regs, 1);
    }
  }

  lemma RunStrings()
    ensures SkipModifiers("=r") == "r" && SkipModifiers("=m") == "m" && SkipModifiers("d") == "d"
    ensures SkipModifiers("0") == "0" && SkipModifiers("1") == "1"
    ensures !IsReference("r") && !IsReference("m") && !IsReference("d") && IsReference("0") && IsReference("1")
    ensures forall ops: seq<Operand> :: |ops| == 3 ==> FindConstraint(ops, "0") == 0 && FindConstraint(ops, "1") == 1
    ensures LetterPriority('r') == 3 && LetterPriority('m') == 4 && LetterPriority('d') == 1
  {
    assert "=r"[1..] == "r" && "=m"[1..] == "m" && "0"[1..] == "" && "1"[1..] == "";
    assert Number("0", 0) == Number("", 0) == 0 && Number("1", 0) == Number("", 1) == 1;
  }

  /** A register output, an input tied to it and an input tied to that input. */
  predicate IsChain(ops: seq<Operand>) {
    |ops| == 3 && ops[0].constraint == "=r" && ops[1].constraint == "0" && ops[2].constraint == "1"
    && forall i :: 0 <= i < 3 ==> ops[i].place.Elsewhere?
  }

  lemma ChainResolves(ops: seq<Operand>, i: nat, e: Error)
    requires IsChain(ops)
    ensures !RefError(ops, i, 1, e)
  {
    RunStrings();
    if RefsOk(ops, i, 1) {
      ChainUnreferenced(ops, i);
    }
  }

  lemma ChainUnreferenced(ops: seq<Operand>, i: nat)
    requires IsChain(ops) && RefsOk(ops, i, 1)
    ensures i == 1 ==> ops[0].inputIndex < 0
    ensures i == 2 ==> ops[1].inputIndex < 0
  {
    hide FindConstraint, SkipModifiers, IsReference, IsPriority;
    RunStrings();
    if i == 1 {
      assert RefOk(ops, 0, 1) && InputOk(ops, 0, 1);
    } else if i == 2 {
      assert RefOk(ops, 0, 1) && RefOk(ops, 1, 1) && InputOk(ops, 1, 2);
    }
  }

  lemma ChainTurn(ops: seq<Operand>, regs: seq<Use>, order: seq<nat>, grants: map<nat, Grant>, i: nat)
    requires IsChain(ops) && AtTurn(ops, regs, order, grants, NO_CLOBBERS, 1, i)
    ensures order[i] == 0 && Stop(ops[0], true, regs, 0) == 1 && IsLetter(ops[0].constraint[1])
  {
    hide FindConstraint, SkipModifiers, IsReference, IsPriority, Try, Stop, OnlyHeld, IsSorted, GrantOk, NoClash, TiedOk;
    RunStrings();
    assert RefOk(ops, 1, 1) && RefOk(ops, 2, 1);
    assert grants == map[];
    NobodyHolds(regs, grants, NO_CLOBBERS, 0);
    assert Try('r', ops[0], true, regs, MaskAt(ops[0], true, 1)).Some? by { FirstTaken(regs, MaskAt(ops[0], true, 1), ops[0]); }
    StopsAtLetter(ops[0], true, regs, 1);
  }

  lemma FirstTaken(regs: seq<Use>, mask: Use, op: Operand)
    requires |regs| == REGS && regs[0] == FREE
    ensures Try('r', op, true, regs, mask).Some?
  {
  }

  lemma ChainSucceeds(ops: seq<Operand>, regs: seq<Use>, order: seq<nat>, grants: map<nat, Grant>, error: Option<Error>)
    requires IsChain(ops) && (error.Some? ==> Justified(ops, regs, order, grants, NO_CLOBBERS, 1, error.value))
    ensures error.None?
  {
    hide RefError, AllocOk, RefsOk, IsOrder, IsSorted, GrantedFirst, Stop;
    forall i: nat, e ensures !RefError(ops, i, 1, e) {
      ChainResolves(ops, i, e);
    }
    forall i: nat, e ensures !AllocError(ops, regs, order, grants, NO_CLOBBERS, 1, i, e) {
      if AtTurn(ops, regs, order, grants, NO_CLOBBERS, 1, i) {
        ChainTurn(ops, regs, order, grants, i);
      }
    }
  }

  lemma ChainGets(ops: seq<Operand>, regs: seq<Use>, grants: map<nat, Grant>)
    requires IsChain(ops) && RefsOk(ops, 3, 1) && AllocOk(ops, regs, grants, NO_CLOBBERS, 1) && Finished(ops, grants)
    ensures ops[0].reg >= 0 && ops[1].reg == ops[0].reg && ops[2].reg == -1
  {
    hide IsPriority, NoClash, ReservedTaken, OnlyHeld, GrantOk, FindConstraint, SkipModifiers, IsReference;
    RunStrings();
    assert RefOk(ops, 0, 1) && RefOk(ops, 1, 1) && RefOk(ops, 2, 1) && TiedOk(ops, grants, 1) && TiedOk(ops, grants, 2);
    RegisterHeld(ops[0], grants[0], regs);
  }

  lemma RegisterHeld(op: Operand, g: Grant, regs: seq<Use>)
    requires GrantOk(op, true, g, regs, NO_CLOBBERS) && op.constraint == "=r"
    ensures op.reg >= 0
  {
    var at :| 0 <= at < |op.constraint| && GrantedAt(op, true, g, at);
    ModifierGetsNothing(op.constraint[at], op.place, true, g);
    assert op.constraint[at] == 'r';
  }

  /** "=r", "0", "1": the first two share a register, the third goes without, and nothing reports it. */
  lemma TiedChain()
    ensures var start := [Parsed("=r", Elsewhere, false), Parsed("0", Elsewhere, false), Parsed("1", Elsewhere, false)];
            var run := RunOf(start, 1, NO_CLOBBERS);
            run.error.None? && |run.ops| == 3 && run.ops[0].reg >= 0 && run.ops[1].reg == run.ops[0].reg && run.ops[2].reg == -1
  {
    hide RefsOk, AllocOk, IsOrder, IsSorted, FlagsKept, AllocError, RefError, RunOf, Justified;
    var start := [Parsed("=r", Elsewhere, false), Parsed("0", Elsewhere, false), Parsed("1", Elsewhere, false)];
    var run := RunOf(start, 1, NO_CLOBBERS);
    RunIsSound(start, 1, NO_CLOBBERS);
    ChainSucceeds(run.ops, run.regs, run.order, run.grants, run.error);
    ChainGets(run.ops, run.regs, run.grants);
  }

  /** A memory output whose pointer is in the frame, an input in edx and an input tied to the output. */
  predicate IsStaleCase(ops: seq<Operand>) {
    |ops| == 3 && ops[0].constraint == "=m" && ops[1].constraint == "d" && ops[2].constraint == "0"
    && ops[0].place.FramePointer? && ops[1].place.Elsewhere? && ops[2].place.Elsewhere?
  }

  lemma StaleCaseResolves(ops: seq<Operand>, i: nat, e: Error)
    requires IsStaleCase(ops)
    ensures !RefError(ops, i, 1, e)
  {
    RunStrings();
    if RefsOk(ops, i, 1) && i == 2 {
      assert RefOk(ops, 0, 1) && RefOk(ops, 1, 1) && InputOk(ops, 0, 2);
    }
  }

  lemma EdxHeld(op: Operand, g: Grant, regs: seq<Use>)
    requires GrantOk(op, false, g, regs, NO_CLOBBERS) && op.constraint == "d"
    ensures g.regs == {2} && op.reg == 2 && !op.isMemory
  {
    var at :| 0 <= at < |op.constraint| && GrantedAt(op, false, g, at);
    assert op.constraint[at] == 'd';
  }

  lemma MemoryHeld(op: Operand, g: Grant, regs: seq<Use>)
    requires GrantOk(op, true, g, regs, NO_CLOBBERS) && op.constraint == "=m" && op.place.FramePointer?
    ensures op.reg >= 0 && op.isMemory
  {
    var at :| 0 <= at < |op.constraint| && GrantedAt(op, true, g, at);
    ModifierGetsNothing(op.constraint[at], op.place, true, g);
    assert op.constraint[at] == 'm';
  }

  /** edx comes first, by priority. */
  lemma StaleCaseHeld(ops: seq<Operand>, regs: seq<Use>, order: seq<nat>, grants: map<nat, Grant>, i: nat)
    requires IsStaleCase(ops) && AtTurn(ops, regs, order, grants, NO_CLOBBERS, 1, i)
    ensures order[i] == 1 ==> grants == map[]
    ensures order[i] == 0 ==> forall p :: p in grants ==> 0 !in grants[p].regs
    ensures order[i] != 2
  {
    hide FindConstraint, SkipModifiers, IsReference, Try, Stop, OnlyHeld, NoClash, TiedOk, GrantOk, LetterPriority;
    RunStrings();
    assert RefOk(ops, 0, 1) && RefOk(ops, 1, 1) && RefOk(ops, 2, 1);
    if order[i] == 1 {
      forall a | 0 <= a < i ensures order[a] == 2 {
        assert InOrder(ops, order[a], order[i]);
      }
    } else if order[i] == 0 {
      forall p | p in grants ensures 0 !in grants[p].regs {
        assert p == 1;
        EdxHeld(ops[1], grants[1], regs);
      }
    }
  }

  lemma StaleCaseTurn(ops: seq<Operand>, regs: seq<Use>, order: seq<nat>, grants: map<nat, Grant>, i: nat)
    requires IsStaleCase(ops) && AtTurn(ops, regs, order, grants, NO_CLOBBERS, 1, i)
    ensures var j := order[i];
            var at := Stop(ops[j], j < 1, regs, 0);
            at < |ops[j].constraint| && IsLetter(ops[j].constraint[at])
  {
    hide FindConstraint, SkipModifiers, IsReference, IsPriority, Try, Stop, OnlyHeld, IsSorted, GrantOk, NoClash, TiedOk, RefsOk;
    RunStrings();
    StaleCaseHeld(ops, regs, order, grants, i);
    if order[i] == 1 {
      NobodyHolds(regs, grants, NO_CLOBBERS, 2);
      EdxTaken(regs, MaskAt(ops[1], false, 0), ops[1]);
      StopsAtLetter(ops[1], false, regs, 0);
    } else {
      NobodyHolds(regs, grants, NO_CLOBBERS, 0);
      MemoryTaken(regs, MaskAt(ops[0], true, 1), ops[0]);
      StopsAtLetter(ops[0], true, regs, 1);
    }
  }

  lemma EdxTaken(regs: seq<Use>, mask: Use, op: Operand)
    requires |regs| == REGS && regs[2] == FREE
    ensures Try('d', op, false, regs, mask).Some?
  {
  }

  lemma MemoryTaken(regs: seq<Use>, mask: Use, op: Operand)
    requires |regs| == REGS && regs[0] == FREE && op.place.FramePointer?
    ensures Try('m', op, true, regs, mask).Some?
  {
  }

  lemma StaleCaseSucceeds(ops: seq<Operand>, regs: seq<Use>, order: seq<nat>, grants: map<nat, Grant>, error: Option<Error>)
    requires IsStaleCase(ops) && (error.Some? ==> Justified(ops, regs, order, grants, NO_CLOBBERS, 1, error.value))
    ensures error.None?
  {
    hide RefError, AllocOk, RefsOk, IsOrder, IsSorted, GrantedFirst, Stop, NoOutReg;
    forall i: nat, e ensures !RefError(ops, i, 1, e) {
      StaleCaseResolves(ops, i, e);
    }
    forall i: nat, e ensures !AllocError(ops, regs, order, grants, NO_CLOBBERS, 1, i, e) {
      if AtTurn(ops, regs, order, grants, NO_CLOBBERS, 1, i) {
        StaleCaseTurn(ops, regs, order, grants, i);
      }
    }
    if RefsOk(ops, 3, 1) && AllocOk(ops, regs, grants, NO_CLOBBERS, 1) {
      StaleCaseNoOutReg(ops, regs, grants);
    }
  }

  lemma StaleCaseNoOutReg(ops: seq<Operand>, regs: seq<Use>, grants: map<nat, Grant>)
    requires IsStaleCase(ops) && RefsOk(ops, 3, 1) && AllocOk(ops, regs, grants, NO_CLOBBERS, 1)
    ensures !NoOutReg(ops, regs)
  {
    hide NoClash, ReservedTaken, OnlyHeld, TiedOk, GrantOk, FindConstraint, SkipModifiers, IsReference;
    RunStrings();
    assert RefOk(ops, 0, 1);
    if 0 in grants {
      MemoryHeld(ops[0], grants[0], regs);
    }
  }

  lemma StaleCaseGets(start: seq<Operand>, ops: seq<Operand>, regs: seq<Use>, grants: map<nat, Grant>)
    requires IsStaleCase(ops) && RefsOk(ops, 3, 1) && AllocOk(ops, regs, grants, NO_CLOBBERS, 1) && Finished(ops, grants)
    requires FlagsKept(start, ops) && start[0].isLlong
    ensures ops[1].reg == 2 && ops[2].reg == ops[0].reg >= 0 && 2 in Occupied(ops[1]) && 2 in Occupied(ops[2])
  {
    hide IsPriority, NoClash, ReservedTaken, OnlyHeld, GrantOk, FindConstraint, SkipModifiers, IsReference;
    RunStrings();
    assert RefOk(ops, 0, 1) && RefOk(ops, 1, 1) && RefOk(ops, 2, 1) && TiedOk(ops, grants, 2);
    MemoryHeld(ops[0], grants[0], regs);
    EdxHeld(ops[1], grants[1], regs);
  }

  /** "=m" with its flag set by chance, "d", "0": the tied input takes edx beside its own register, and edx is the other input's. */
  lemma StaleFlag()
    ensures var start := [Parsed("=m", FramePointer, true), Parsed("d", Elsewhere, false), Parsed("0", Elsewhere, false)];
            var run := RunOf(start, 1, NO_CLOBBERS);
            run.error.None? && |run.ops| == 3 && run.ops[1].reg == 2 && run.ops[2].reg == run.ops[0].reg >= 0
            && 2 in Occupied(run.ops[1]) && 2 in Occupied(run.ops[2])
  {
    hide RefsOk, AllocOk, IsOrder, IsSorted, FlagsKept, AllocError, RefError, RunOf, Justified;
    var start := [Parsed("=m", FramePointer, true), Parsed("d", Elsewhere, false), Parsed("0", Elsewhere, false)];
    var run := RunOf(start, 1, NO_CLOBBERS);
    RunIsSound(start, 1, NO_CLOBBERS);
    StaleCaseSucceeds(run.ops, run.regs, run.order, run.grants, run.error);
    StaleCaseGets(start, run.ops, run.regs, run.grants);
  }

  // ---------------------------------------------------------------- which flags are harmless

  /** The flags the operands come with. */
  predicate HasFlags(start: seq<Operand>, flags: seq<bool>) {
    |start| == |flags| && forall i :: 0 <= i < |flags| ==> start[i].isLlong == flags[i]
  }

  /** Operand `i` keeps off reserved registers, and a tied one has exactly its operand's. */
  ghost predicate InPlace(start: seq<Operand>, outputs: nat, clobbered: seq<bool>, i: nat)
    requires i < |start|
  {
    var ops := RunOf(start, outputs, clobbered).ops;
    && i < |ops| && (forall r :: r in Occupied(ops[i]) ==> 0 <= r < REGS && !Reserved(clobbered, r))
    && (IsTied(start[i]) ==> 0 <= Named(start, i) < i && Occupied(ops[i]) == if IsTied(start[Named(start, i)]) then {}
                                                                               else Occupied(ops[Named(start, i)]))
  }

  /** Operands of different holders whose uses meet have no register in common. */
  ghost predicate Apart(start: seq<Operand>, outputs: nat, clobbered: seq<bool>, i: nat, j: nat)
    requires i < |start| && j < |start|
  {
    var run := RunOf(start, outputs, clobbered);
    i < |run.ops| && j < |run.ops|
    && (Named(start, i) != Named(start, j) && Meets(UseOf(run.ops, run.grants, i), UseOf(run.ops, run.grants, j)) ==>
          Occupied(run.ops[i]) !! Occupied(run.ops[j]))
  }

  ghost predicate SafeRun(start: seq<Operand>, outputs: nat, clobbered: seq<bool>) {
    (forall i :: 0 <= i < |start| ==> InPlace(start, outputs, clobbered, i))
    && forall i, j {:trigger Apart(start, outputs, clobbered, i, j)} :: 0 <= i < |start| && 0 <= j < |start| ==>
                                                                          Apart(start, outputs, clobbered, i, j)
  }

  /** No operand that another can be tied to has its flag set. */
  predicate NoEarlyFlag(flags: seq<bool>) {
    forall k :: 0 <= k < |flags| - 1 ==> !flags[k]
  }

  lemma ClearFlagsAreSafe(start: seq<Operand>, outputs: nat, clobbered: seq<bool>, flags: seq<bool>)
    requires HasFlags(start, flags) && NoEarlyFlag(flags) && Accepted(start, outputs, clobbered)
    ensures SafeRun(start, outputs, clobbered)
  {
    hide RunOf, Reserved, IsTied, Occupied, UseOf;
    forall i | 0 <= i < |start| ensures FlagClear(start, outputs, i) {
      RunFindsNamed(start, outputs, clobbered, i);
    }
    forall i | 0 <= i < |start| ensures InPlace(start, outputs, clobbered, i) {
      OneInPlace(start, outputs, clobbered, i);
    }
    forall i, j | 0 <= i < |start| && 0 <= j < |start| ensures Apart(start, outputs, clobbered, i, j) {
      TwoApart(start, outputs, clobbered, i, j);
    }
  }

  lemma OneInPlace(start: seq<Operand>, outputs: nat, clobbered: seq<bool>, i: nat)
    requires Accepted(start, outputs, clobbered) && i < |start| && FlagClear(start, outputs, i)
    ensures InPlace(start, outputs, clobbered, i)
  {
    hide RunOf, Reserved, IsTied, Occupied, FlagClear, AllocOk, RefsOk;
    RunIsSound(start, outputs, clobbered);
    var run := RunOf(start, outputs, clobbered);
    ClearIsNotStale(start, outputs, clobbered, i);
    OccupiedIsHeld(run.ops, run.regs, run.grants, clobbered, outputs, i);
    if IsTied(start[i]) {
      TiedOccupies(start, outputs, clobbered, i);
    }
  }

  lemma TwoApart(start: seq<Operand>, outputs: nat, clobbered: seq<bool>, i: nat, j: nat)
    requires Accepted(start, outputs, clobbered) && i < |start| && j < |start|
    requires FlagClear(start, outputs, i) && FlagClear(start, outputs, j)
    ensures Apart(start, outputs, clobbered, i, j)
  {
    hide RunOf, Reserved, Named, Occupied, FlagClear, UseOf, Meets;
    RunIsSound(start, outputs, clobbered);
    if Named(start, i) != Named(start, j) {
      RegistersAreSafe(start, outputs, clobbered, i, j);
    }
  }

  /** One memory input named x, a last input tied to it, and inputs that need nothing. */
  predicate IsWitness(ops: seq<Operand>, k: nat) {
    k < |ops| - 1
    && (forall i :: 0 <= i < |ops| ==>
          ops[i].constraint == (if i == k then "m" else if i == |ops| - 1 then "[x]" else "g")
          && ops[i].name == (if i == k then Some("x") else None) && ops[i].place == if i == k then FramePointer else Elsewhere)
  }

  function WitnessOperand(n: nat, k: nat, i: nat, isLlong: bool): Operand {
    if i == k then Operand("m", Some("x"), FramePointer, -1, -1, 0, -1, isLlong, false, false)
    else Parsed(if i == n - 1 then "[x]" else "g", Elsewhere, isLlong)
  }

  function Witness(flags: seq<bool>, k: nat): (start: seq<Operand>)
    requires k < |flags| - 1
    ensures |start| == |flags| && IsWitness(start, k) && HasFlags(start, flags)
  {
    seq(|flags|, i requires 0 <= i < |flags| => WitnessOperand(|flags|, k, i, flags[i]))
  }

  const EDX_CLOBBERED := [false, false, true, false, false, false, false, false]

  lemma WitnessStrings()
    ensures SkipModifiers("m") == "m" && SkipModifiers("g") == "g" && SkipModifiers("[x]") == "[x]"
    ensures !IsReference("m") && !IsReference("g") && IsReference("[x]") && AllKnown("m") && AllKnown("g")
    ensures IsLetter('m') && IsLetter('g')
  {
  }

  lemma WitnessNames(ops: seq<Operand>, k: nat)
    requires IsWitness(ops, k)
    ensures FindConstraint(ops, "[x]") == k
  {
    var rest := "[x]"[1..];
    assert rest == "x]" && rest[1..] == "]" && Bracket("]") == 0 && Bracket(rest) == 1;
    var first := FirstNamed(ops, "x", 0);
    assert ops[k].name == Some("x") && first <= k && ops[first].name == Some("x");
    assert rest[..1] == "x" && "[x]"[1..1 + Bracket(rest)] == "x";
  }

  lemma WitnessResolves(ops: seq<Operand>, k: nat, i: nat, e: Error)
    requires IsWitness(ops, k)
    ensures !RefError(ops, i, 0, e)
  {
    hide SkipModifiers, IsReference, FindConstraint, LetterPriority, IsPriority;
    WitnessStrings();
    WitnessNames(ops, k);
    if RefsOk(ops, i, 0) && i == |ops| - 1 {
      assert InputOk(ops, k, i);
      if 0 <= ops[k].inputIndex < i {
        assert RefOk(ops, ops[k].inputIndex, 0);
      }
    }
  }

  lemma WitnessHeld(ops: seq<Operand>, regs: seq<Use>, grants: map<nat, Grant>, k: nat, p: nat)
    requires IsWitness(ops, k) && RefsOk(ops, |ops|, 0) && AllocOk(ops, regs, grants, EDX_CLOBBERED, 0) && p in grants
    ensures p < |ops| - 1 && (p != k ==> grants[p].regs == {})
    ensures p == k ==> ops[k].reg >= 0 && ops[k].isMemory
  {
    hide SkipModifiers, IsReference, FindConstraint, RefsOk, NoClash, OnlyHeld, TiedOk, ReservedTaken, GrantOk;
    var op := ops[p];
    Untied(op, false, grants[p], regs, EDX_CLOBBERED);
    WitnessUntied(ops, k, p);
    if p == k {
      AddressHeld(op, grants[p], regs);
    } else {
      NothingHeld(op, grants[p], regs);
    }
  }

  lemma AddressHeld(op: Operand, g: Grant, regs: seq<Use>)
    requires GrantOk(op, false, g, regs, EDX_CLOBBERED) && op.constraint == "m" && op.place.FramePointer?
    ensures op.reg >= 0 && op.isMemory
  {
    var at :| 0 <= at < |op.constraint| && GrantedAt(op, false, g, at);
    assert op.constraint[at] == 'm';
  }

  lemma NothingHeld(op: Operand, g: Grant, regs: seq<Use>)
    requires GrantOk(op, false, g, regs, EDX_CLOBBERED) && op.constraint == "g"
    ensures g.regs == {}
  {
    var at :| 0 <= at < |op.constraint| && GrantedAt(op, false, g, at);
    assert op.constraint[at] == 'g';
  }

  lemma WitnessTurn(ops: seq<Operand>, regs: seq<Use>, order: seq<nat>, grants: map<nat, Grant>, k: nat, i: nat)
    requires IsWitness(ops, k) && AtTurn(ops, regs, order, grants, EDX_CLOBBERED, 0, i)
    ensures var j := order[i];
            var at := Stop(ops[j], j < 0, regs, 0);
            at < |ops[j].constraint| && IsLetter(ops[j].constraint[at])
  {
    hide SkipModifiers, IsReference, FindConstraint, LetterPriority, IsPriority, GrantOk, NoClash, TiedOk, OnlyHeld, IsSorted, Try,
      Stop, RefsOk, MaskAt;
    WitnessStrings();
    var j := order[i];
    WitnessUntied(ops, k, j);
    assert |regs| == REGS && j !in grants;
    if j == k {
      forall p | p in grants ensures 0 !in grants[p].regs {
        WitnessHeld(ops, regs, grants, k, p);
      }
      NobodyHolds(regs, grants, EDX_CLOBBERED, 0);
      AddressTaken(regs, MaskAt(ops[j], false, 0), ops[j]);
    } else {
      NothingTaken(regs, MaskAt(ops[j], false, 0), ops[j]);
    }
    StopsAtLetter(ops[j], false, regs, 0);
  }

  lemma WitnessUntied(ops: seq<Operand>, k: nat, j: nat)
    requires IsWitness(ops, k) && RefsOk(ops, |ops|, 0) && j < |ops| && ops[j].refIndex < 0
    ensures j != |ops| - 1
  {
    hide SkipModifiers, IsReference, FindConstraint, IsPriority;
    WitnessStrings();
    assert RefOk(ops, j, 0);
  }

  lemma AddressTaken(regs: seq<Use>, mask: Use, op: Operand)
    requires |regs| == REGS && regs[0] == FREE && op.place.FramePointer?
    ensures Try('m', op, false, regs, mask).Some?
  {
  }

  lemma NothingTaken(regs: seq<Use>, mask: Use, op: Operand)
    ensures Try('g', op, false, regs, mask).Some?
  {
  }

  lemma WitnessSucceeds(ops: seq<Operand>, regs: seq<Use>, order: seq<nat>, grants: map<nat, Grant>, k: nat, error: Option<Error>)
    requires IsWitness(ops, k) && (error.Some? ==> Justified(ops, regs, order, grants, EDX_CLOBBERED, 0, error.value))
    ensures error.None?
  {
    hide RefError, AllocOk, RefsOk, IsOrder, IsSorted, GrantedFirst, Stop, NoOutReg, IsWitness, IsLetter;
    forall i: nat, e ensures !RefError(ops, i, 0, e) {
      WitnessResolves(ops, k, i, e);
    }
    forall i: nat, e ensures !AllocError(ops, regs, order, grants, EDX_CLOBBERED, 0, i, e) {
      if AtTurn(ops, regs, order, grants, EDX_CLOBBERED, 0, i) {
        WitnessTurn(ops, regs, order, grants, k, i);
        NoLetter();
      }
    }
    if RefsOk(ops, |ops|, 0) && AllocOk(ops, regs, grants, EDX_CLOBBERED, 0) {
      WitnessNoOutReg(ops, regs, grants, k);
    }
  }

  lemma WitnessNoOutReg(ops: seq<Operand>, regs: seq<Use>, grants: map<nat, Grant>, k: nat)
    requires IsWitness(ops, k) && RefsOk(ops, |ops|, 0) && AllocOk(ops, regs, grants, EDX_CLOBBERED, 0)
    ensures !NoOutReg(ops, regs)
  {
    hide NoClash, ReservedTaken, OnlyHeld, TiedOk, GrantOk, FindConstraint, SkipModifiers, IsReference, IsPriority;
    WitnessStrings();
    assert RefOk(ops, k, 0);
    if k in grants {
      WitnessHeld(ops, regs, grants, k, k);
    }
  }

  /** With the flag at `k` set the last input takes edx, though it is clobbered and not its operand's. */
  lemma WitnessIsUnsafe(flags: seq<bool>, k: nat)
    requires k < |flags| - 1 && flags[k]
    ensures var start := Witness(flags, k);
            Accepted(start, 0, EDX_CLOBBERED) && !InPlace(start, 0, EDX_CLOBBERED, |start| - 1)
  {
    hide RefsOk, AllocOk, IsOrder, IsSorted, AllocError, RefError, RunOf, Justified, Witness, IsWitness, HasFlags;
    var start := Witness(flags, k);
    var run := RunOf(start, 0, EDX_CLOBBERED);
    RunIsSound(start, 0, EDX_CLOBBERED);
    WitnessKept(start, run.ops, k);
    WitnessSucceeds(run.ops, run.regs, run.order, run.grants, k, run.error);
    WitnessGets(start, run.ops, run.regs, run.grants, flags, k);
  }

  lemma WitnessKept(start: seq<Operand>, ops: seq<Operand>, k: nat)
    requires IsWitness(start, k) && SameSource(start, ops)
    ensures IsWitness(ops, k)
  {
  }

  lemma WitnessGets(start: seq<Operand>, ops: seq<Operand>, regs: seq<Use>, grants: map<nat, Grant>, flags: seq<bool>, k: nat)
    requires IsWitness(ops, k) && RefsOk(ops, |ops|, 0) && AllocOk(ops, regs, grants, EDX_CLOBBERED, 0) && Finished(ops, grants)
    requires FlagsKept(start, ops) && HasFlags(start, flags) && flags[k]
    ensures 2 in Occupied(ops[|ops| - 1])
  {
    hide IsPriority, NoClash, ReservedTaken, OnlyHeld, GrantOk, FindConstraint, SkipModifiers, IsReference;
    WitnessStrings();
    WitnessNames(ops, k);
    assert RefOk(ops, k, 0) && RefOk(ops, |ops| - 1, 0) && TiedOk(ops, grants, |ops| - 1);
    WitnessHeld(ops, regs, grants, k, k);
  }

  /**
   * Operands that come with these flags are allocated safely, whatever they are and whatever is clobbered, exactly when no operand
   * before the last has its flag set.
   */
  lemma FlagsAreHarmlessIff(flags: seq<bool>)
    ensures (forall start: seq<Operand>, outputs: nat, clobbered: seq<bool> |
               HasFlags(start, flags) && Accepted(start, outputs, clobbered) :: SafeRun(start, outputs, clobbered))
            <==> NoEarlyFlag(flags)
  {
    hide HasFlags, Accepted, SafeRun, Witness, IsWitness, InPlace, RunOf;
    if NoEarlyFlag(flags) {
      forall start: seq<Operand>, outputs: nat, clobbered: seq<bool> | HasFlags(start, flags) && Accepted(start, outputs, clobbered)
        ensures SafeRun(start, outputs, clobbered)
      {
        ClearFlagsAreSafe(start, outputs, clobbered, flags);
      }
    } else {
      var k :| 0 <= k < |flags| - 1 && flags[k];
      WitnessIsUnsafe(flags, k);
      NotInPlaceNotSafe(Witness(flags, k), 0, EDX_CLOBBERED, |flags| - 1);
    }
  }

  lemma NotInPlaceNotSafe(start: seq<Operand>, outputs: nat, clobbered: seq<bool>, i: nat)
    requires i < |start| && !InPlace(start, outputs, clobbered, i)
    ensures !SafeRun(start, outputs, clobbered)
  {
  }

  // ---------------------------------------------------------------- the percent modifier

  /** "%r" has the priority of "r", and the run stops at the modifier. */
  lemma PercentExample()
    ensures var start := [Parsed("%r", Elsewhere, false)];
            && SkipModifiers("%r") == "r" && IsPriority("r", 3)
            && RunOf(start, 0, NO_CLOBBERS).error == Some(Unsatisfied)
  {
    hide RefsOk, AllocOk, IsOrder, IsSorted, RunOf, FlagsKept;
    var start := [Parsed("%r", Elsewhere, false)];
    var run := RunOf(start, 0, NO_CLOBBERS);
    PercentStrings();
    PercentIsRefused(start, 0, NO_CLOBBERS, 0);
    RunIsSound(start, 0, NO_CLOBBERS);
    PercentErrors(run.ops, run.regs, run.order, run.grants, run.error.value);
  }

  lemma PercentStrings()
    ensures SkipModifiers("%r") == "r" && !IsReference("r") && AllKnown("r") && IsPriority("r", 3) && HasPercent("%r")
  {
    assert "%r"[1..] == "r";
    assert "%r"[0] == '%';
    assert LetterPriority("r"[0]) == 3;
  }

  lemma PercentErrors(ops: seq<Operand>, regs: seq<Use>, order: seq<nat>, grants: map<nat, Grant>, e: Error)
    requires |ops| == 1 && ops[0].constraint == "%r" && ops[0].place.Elsewhere?
    requires Justified(ops, regs, order, grants, NO_CLOBBERS, 0, e)
    ensures e == Unsatisfied
  {
    hide RefsOk, AllocOk, IsOrder, IsSorted, GrantedFirst, IsReference, SkipModifiers, LetterPriority, FindConstraint;
    PercentStrings();
    assert Stop(ops[0], false, regs, 0) == 0 by { PercentStops(ops[0], regs); }
  }

  lemma PercentStops(op: Operand, regs: seq<Use>)
    requires op.constraint == "%r"
    ensures Stop(op, false, regs, 0) == 0
  {
    assert !Passes(op, false, regs, 0);
  }
}
