/** Constraint strings of inline assembly operands: priorities, references and the choice of a register (i386-asm.c, tccasm.c). */
module AsmConstraints {
  import opened Options

  const REGS := 8
  const ESP := 4
  const EBP := 5

  /** Where the C value of an operand is, as far as constraints ask: a constant, a pointer kept in the frame, or elsewhere. */
  datatype Place = Constant(hasSym: bool) | FramePointer | Elsewhere

  datatype Operand = Operand(constraint: string, name: Option<string>, place: Place, inputIndex: int, refIndex: int,
                             priority: int, reg: int, isLlong: bool, isMemory: bool, isRw: bool)

  /** REG_IN_MASK and REG_OUT_MASK. */
  datatype Use = Use(inp: bool, out: bool)

  const BOTH := Use(true, true)
  const IN := Use(true, false)
  const OUT := Use(false, true)
  const FREE := Use(false, false)

  predicate Meets(a: Use, b: Use) {
    (a.inp && b.inp) || (a.out && b.out)
  }

  function Join(a: Use, b: Use): Use {
    Use(a.inp || b.inp, a.out || b.out)
  }

  predicate Covers(a: Use, b: Use) {
    (b.inp ==> a.inp) && (b.out ==> a.out)
  }

  datatype Error = InvalidReference | ReferencedTwice | UnknownConstraint | BadModifier | Unsatisfied | NoOutputRegister

  // ---------------------------------------------------------------- priorities

  /** The priority a letter asks for; -1 for a letter no constraint may hold. */
  function LetterPriority(c: char): int {
    if c == 'A' then 0
    else if c in "abcdSD" then 1
    else if c == 'q' then 2
    else if c in "rRp" then 3
    else if c in "NMIeimg" then 4
    else -1
  }

  /** `p` is the largest priority among the letters, or zero without letters. */
  predicate IsPriority(s: string, p: int) {
    p >= 0 && (forall k :: 0 <= k < |s| ==> 0 <= LetterPriority(s[k]) <= p)
    && (p > 0 ==> exists k :: 0 <= k < |s| && LetterPriority(s[k]) == p)
  }

  /** Every letter is one a constraint may hold. */
  predicate AllKnown(s: string) {
    forall k :: 0 <= k < |s| ==> LetterPriority(s[k]) >= 0
  }

  function TopPriority(s: string): int {
    if s == [] then 0 else
    var p, pr := TopPriority(s[..|s| - 1]), LetterPriority(s[|s| - 1]);
    if pr > p then pr else p
  }

  lemma {:induction false} TopIsPriority(s: string)
    requires AllKnown(s)
    ensures IsPriority(s, TopPriority(s))
  {
    hide LetterPriority;
    if s != [] {
      TopIsPriority(s[..|s| - 1]);
      assert s == s[..|s| - 1] + [s[|s| - 1]];
    }
  }

  lemma PriorityIsTop(s: string, p: int)
    requires IsPriority(s, p)
    ensures p == TopPriority(s)
  {
    hide LetterPriority;
    TopIsPriority(s);
  }

  /** constraint_priority; `None` is its error. */
  method ConstraintPriority(s: string) returns (priority: Option<int>)
    ensures priority.Some? ==> IsPriority(s, priority.value)
    ensures priority.None? <==> exists k :: 0 <= k < |s| && LetterPriority(s[k]) == -1
  {
    hide LetterPriority;
    var p := 0;
    var i := 0;
    while i < |s|
      invariant 0 <= i <= |s| && p >= 0
      invariant forall k :: 0 <= k < i ==> 0 <= LetterPriority(s[k]) <= p
      invariant p > 0 ==> exists k :: 0 <= k < i && LetterPriority(s[k]) == p
    {
      LetterRange(s[i]);
      var pr := LetterPriority(s[i]);
      if pr == -1 {
        return None;
      }
      if pr > p {
        p := pr;
      }
      i := i + 1;
    }
    priority := Some(p);
  }

  lemma LetterRange(c: char)
    ensures -1 <= LetterPriority(c) <= 4
  {
  }

  // ---------------------------------------------------------------- references

  predicate IsModifier(c: char) {
    c == '=' || c == '&' || c == '+' || c == '%'
  }

  function SkipModifiers(s: string): string {
    if s != [] && IsModifier(s[0]) then SkipModifiers(s[1..]) else s
  }

  predicate IsDigit(c: char) {
    '0' <= c <= '9'
  }

  /** The number at the start of a string, after what has been read. */
  function Number(s: string, index: nat): nat
    decreases s
  {
    if s == [] || !IsDigit(s[0]) then index else Number(s[1..], 10 * index + (s[0] - '0') as nat)
  }

  /** Where the first closing bracket is; the length when there is none. */
  function Bracket(s: string): (i: nat)
    ensures i <= |s| && (i < |s| ==> s[i] == ']') && forall k :: 0 <= k < i ==> s[k] != ']'
  {
    if s == [] || s[0] == ']' then 0 else 1 + Bracket(s[1..])
  }

  function FirstNamed(operands: seq<Operand>, name: string, from: nat): (i: nat)
    requires from <= |operands|
    ensures from <= i <= |operands| && (i < |operands| ==> operands[i].name == Some(name))
    ensures forall k :: from <= k < i ==> operands[k].name != Some(name)
    decreases |operands| - from
  {
    if from == |operands| || operands[from].name == Some(name) then from else FirstNamed(operands, name, from + 1)
  }

  predicate IsReference(s: string) {
    s != [] && (IsDigit(s[0]) || s[0] == '[')
  }

  /** find_constraint: by number or by name, -1 when there is no such operand. */
  function FindConstraint(operands: seq<Operand>, s: string): (k: int)
    ensures -1 <= k < |operands|
  {
    if s == [] then -1
    else if IsDigit(s[0]) then (if Number(s, 0) >= |operands| then -1 else Number(s, 0))
    else if s[0] == '[' && Bracket(s[1..]) < |s| - 1 then
      var k := FirstNamed(operands, s[1..1 + Bracket(s[1..])], 0);
      if k == |operands| then -1 else k
    else -1
  }

  // ---------------------------------------------------------------- choosing for one operand

  predicate IsFree(regs: seq<Use>, r: nat, mask: Use) {
    r < |regs| && !Meets(regs[r], mask)
  }

  /** The lowest register below `limit` free for the mask; `limit` when there is none. */
  function FirstFree(regs: seq<Use>, limit: nat, mask: Use, from: nat): (r: nat)
    requires from <= limit
    ensures from <= r <= limit && (r < limit ==> IsFree(regs, r, mask))
    ensures forall k :: from <= k < r ==> !IsFree(regs, k, mask)
    decreases limit - from
  {
    if from == limit || IsFree(regs, from, mask) then from else FirstFree(regs, limit, mask, from + 1)
  }

  /** What a letter is given: registers for a use, and whether as the register of a memory operand. */
  datatype Grant = Grant(regs: set<nat>, mask: Use, memory: bool)

  /** The fixed register of a letter. */
  function FixedReg(c: char): int {
    if c == 'a' then 0 else if c == 'b' then 3 else if c == 'c' then 1 else if c == 'd' then 2
    else if c == 'S' then 6 else if c == 'D' then 7 else -1
  }

  /** What one letter gets, if it can be met. */
  function Try(c: char, op: Operand, output: bool, regs: seq<Use>, mask: Use): Option<Grant> {
    if c == 'A' then
      if IsFree(regs, 0, mask) && IsFree(regs, 2, mask) then Some(Grant({0, 2}, mask, false)) else None
    else if FixedReg(c) >= 0 then
      if IsFree(regs, FixedReg(c), mask) then Some(Grant({FixedReg(c)}, mask, false)) else None
    else if c == 'q' then LowestFree(regs, 4, mask, false)
    else if c in "rRp" then LowestFree(regs, REGS, mask, false)
    else if c in "ei" then
      if op.place.Constant? then Some(Grant({}, mask, false)) else None
    else if c in "INM" then
      if op.place == Constant(false) then Some(Grant({}, mask, false)) else None
    else if c in "mg" then
      if (output || c == 'm') && op.place.FramePointer? then LowestFree(regs, REGS, IN, true)
      else Some(Grant({}, mask, false))
    else None
  }

  /** The general registers. */
  datatype Register = Eax | Ecx | Edx | Ebx | Esp | Ebp | Esi | Edi

  /** Their numbers in an instruction (table 2-2 in section 2.1.5 of the Intel SDM, volume 2A). */
  function Code(r: Register): nat {
    match r
    case Eax => 0
    case Ecx => 1
    case Edx => 2
    case Ebx => 3
    case Esp => 4
    case Ebp => 5
    case Esi => 6
    case Edi => 7
  }

  /** The register a letter names. */
  function Meant(c: char): Option<Register> {
    match c
    case 'a' => Some(Eax)
    case 'b' => Some(Ebx)
    case 'c' => Some(Ecx)
    case 'd' => Some(Edx)
    case 'S' => Some(Esi)
    case 'D' => Some(Edi)
    case _ => None
  }

  /** What a letter means: eax and edx, a named register, one of eax to edx, any register, a constant, memory. */
  predicate Allows(c: char, place: Place, output: bool, g: Grant) {
    if c == 'A' then g.regs == {Code(Eax), Code(Edx)} && !g.memory
    else if Meant(c).Some? then g.regs == {Code(Meant(c).value)} && !g.memory
    else if c == 'q' then (exists r :: r in {Eax, Ebx, Ecx, Edx} && g.regs == {Code(r)}) && !g.memory
    else if c in "rRp" then (exists r :: g.regs == {Code(r)}) && !g.memory
    else if c in "ei" then place.Constant? && g.regs == {}
    else if c in "INM" then place == Constant(false) && g.regs == {}
    else if c in "mg" then
      if (output || c == 'm') && place.FramePointer? then (exists r :: g.regs == {Code(r)}) && g.memory
      else g.regs == {}
    else false
  }

  lemma TryIsAllowed(c: char, op: Operand, output: bool, regs: seq<Use>, mask: Use, g: Grant)
    requires Try(c, op, output, regs, mask) == Some(g)
    ensures Allows(c, op.place, output, g)
  {
    hide Meets, Code;
    Codes();
    if c == 'q' {
      FirstFour(FirstFree(regs, 4, mask, 0));
    } else if c in "rRpmg" && g.regs != {} {
      EveryCode(FirstFree(regs, REGS, if g.memory then IN else mask, 0));
    }
  }

  lemma Codes()
    ensures Code(Eax) == 0 && Code(Ecx) == 1 && Code(Edx) == 2 && Code(Ebx) == 3
    ensures Code(Esp) == 4 && Code(Ebp) == 5 && Code(Esi) == 6 && Code(Edi) == 7
  {
  }

  lemma FirstFour(n: nat)
    requires n < 4
    ensures exists r :: r in {Eax, Ebx, Ecx, Edx} && {n} == {Code(r)}
  {
    Codes();
    assert {n} == {Code(if n == 0 then Eax else if n == 1 then Ecx else if n == 2 then Edx else Ebx)};
  }

  lemma EveryCode(n: nat)
    requires n < REGS
    ensures exists r :: {n} == {Code(r)}
  {
    Codes();
    assert {n} == {Code(if n == 0 then Eax else if n == 1 then Ecx else if n == 2 then Edx else if n == 3 then Ebx
                        else if n == 4 then Esp else if n == 5 then Ebp else if n == 6 then Esi else Edi)};
  }

  function LowestFree(regs: seq<Use>, limit: nat, mask: Use, memory: bool): Option<Grant> {
    var r := FirstFree(regs, limit, mask, 0);
    if r < limit then Some(Grant({r}, mask, memory)) else None
  }

  predicate IsLetter(c: char) {
    LetterPriority(c) >= 0
  }

  /** The use before any modifier is seen: both for an operand with a tied input, else output or input. */
  function Role(op: Operand, output: bool): Use {
    if op.inputIndex >= 0 then BOTH else if output then OUT else IN
  }

  /** The use at a letter: an early clobber and a read-write output take both. */
  function MaskAt(op: Operand, output: bool, at: nat): Use {
    if exists k :: 0 <= k < at && k < |op.constraint| && op.constraint[k] in "+&" then BOTH else Role(op, output)
  }

  /**
   * The grant is what the letter at `at` means, for the use its modifiers ask; the address of a memory operand is an input. Only
   * letters and the modifiers that may stand there come before.
   */
  predicate GrantedAt(op: Operand, output: bool, g: Grant, at: nat) {
    && at < |op.constraint| && Allows(op.constraint[at], op.place, output, g)
    && (forall k :: 0 <= k < at ==> op.constraint[k] == '=' || (op.constraint[k] in "+&" && output) || IsLetter(op.constraint[k]))
    && g.mask == if g.memory then IN else MaskAt(op, output, at)
  }

  /** The grant meets one of the operand's letters. */
  predicate MeetsConstraint(op: Operand, output: bool, g: Grant) {
    exists at :: 0 <= at < |op.constraint| && GrantedAt(op, output, g, at)
  }

  /** A modifier in front of all letters asks for both uses. */
  predicate TakesBoth(s: string) {
    exists k :: 0 <= k < |s| && s[k] in "+&" && forall h :: 0 <= h < k ==> IsModifier(s[h])
  }

  lemma ModifierGetsNothing(c: char, place: Place, output: bool, g: Grant)
    requires Allows(c, place, output, g)
    ensures !IsModifier(c)
  {
  }

  /** So whichever letter is granted, the register serves for both. */
  lemma TakesBothMask(op: Operand, output: bool, g: Grant)
    requires MeetsConstraint(op, output, g) && !g.memory && TakesBoth(op.constraint)
    ensures g.mask == BOTH
  {
    hide Allows, Role, LetterPriority;
    var at :| 0 <= at < |op.constraint| && GrantedAt(op, output, g, at);
    var k :| 0 <= k < |op.constraint| && op.constraint[k] in "+&" && forall h :: 0 <= h < k ==> IsModifier(op.constraint[h]);
    ModifierGetsNothing(op.constraint[at], op.place, output, g);
    assert k < at;
  }

  /** The operand with its grant. */
  function WithGrant(o: Operand, g: Grant): Operand {
    if g.regs == {} then o
    else if g.memory then o.(reg := Lowest(g.regs), isMemory := true)
    else o.(reg := Lowest(g.regs), isLlong := g.regs == {0, 2})
  }

  function ReadWrite(op: Operand, at: nat): bool {
    op.isRw || exists k :: 0 <= k < at && k < |op.constraint| && op.constraint[k] == '+'
  }

  function Given(op: Operand, g: Grant, at: nat): Operand {
    WithGrant(op.(isRw := ReadWrite(op, at)), g)
  }

  /** The register number that stands for the grant. */
  function Lowest(s: set<nat>): int {
    if 0 in s then 0 else if 1 in s then 1 else if 2 in s then 2 else if 3 in s then 3 else if 4 in s then 4
    else if 5 in s then 5 else if 6 in s then 6 else if 7 in s then 7 else -1
  }

  function Marked(regs: seq<Use>, g: Grant): (after: seq<Use>)
    ensures |after| == |regs|
    ensures forall r :: 0 <= r < |regs| ==> after[r] == if r in g.regs then Join(regs[r], g.mask) else regs[r]
  {
    seq(|regs|, r requires 0 <= r < |regs| => if r in g.regs then Join(regs[r], g.mask) else regs[r])
  }

  /** Scanning goes on past a modifier that may stand here and past a letter that cannot be met. */
  predicate Passes(op: Operand, output: bool, regs: seq<Use>, k: nat)
    requires k < |op.constraint|
  {
    var c := op.constraint[k];
    c == '=' || (c in "+&" && output) || (IsLetter(c) && Try(c, op, output, regs, MaskAt(op, output, k)).None?)
  }

  /** Where scanning stops. */
  function Stop(op: Operand, output: bool, regs: seq<Use>, i: nat): (at: nat)
    requires i <= |op.constraint|
    ensures i <= at <= |op.constraint| && (at < |op.constraint| ==> !Passes(op, output, regs, at))
    ensures forall k :: i <= k < at ==> Passes(op, output, regs, k)
    decreases |op.constraint| - i
  {
    if i < |op.constraint| && Passes(op, output, regs, i) then Stop(op, output, regs, i + 1) else i
  }

  /** The first letter that can be met decides, and this is what it gets. */
  predicate Chosen(op: Operand, output: bool, regs: seq<Use>, at: nat, g: Grant) {
    at == Stop(op, output, regs, 0) && at < |op.constraint| && IsLetter(op.constraint[at])
    && Try(op.constraint[at], op, output, regs, MaskAt(op, output, at)) == Some(g)
  }

  /** The grant at the stop, nothing when there is none. */
  function GrantAt(op: Operand, output: bool, regs: seq<Use>): Grant {
    var at := Stop(op, output, regs, 0);
    if at == |op.constraint| then Grant({}, FREE, false) else
    match Try(op.constraint[at], op, output, regs, MaskAt(op, output, at))
    case Some(g) => g
    case None => Grant({}, FREE, false)
  }

  method LowestFreeRegister(regs: seq<Use>, limit: nat, mask: Use) returns (r: nat)
    requires |regs| == REGS && limit <= REGS
    ensures r == FirstFree(regs, limit, mask, 0)
  {
    r := 0;
    while r < limit && Meets(regs[r], mask)
      invariant r <= limit && FirstFree(regs, limit, mask, r) == FirstFree(regs, limit, mask, 0)
    {
      r := r + 1;
    }
  }

  /** The switch of asm_compute_constraints for an operand that is not a reference. */
  method Choose(op: Operand, output: bool, regs: seq<Use>) returns (error: Option<Error>, after: Operand, regs2: seq<Use>)
    requires |regs| == REGS
    ensures var at, g := Stop(op, output, regs, 0), GrantAt(op, output, regs);
            && (error.None? <==> at < |op.constraint| && IsLetter(op.constraint[at]))
            && (error.None? ==> Chosen(op, output, regs, at, g) && after == Given(op, g, at) && regs2 == Marked(regs, g))
            && (error == Some(BadModifier) <==> at < |op.constraint| && op.constraint[at] in "+&")
            && (error.Some? ==> error.value in {BadModifier, Unsatisfied} && after == op && regs2 == regs)
  {
    hide Try, IsLetter, WithGrant, Marked;
    after, regs2 := op, regs;
    var mask := Role(op, output);
    var rw := op.isRw;
    var i := 0;
    NoLetter();
    while i < |op.constraint|
      invariant 0 <= i <= |op.constraint| && Stop(op, output, regs, i) == Stop(op, output, regs, 0)
      invariant mask == MaskAt(op, output, i) && rw == ReadWrite(op, i)
    {
      var c := op.constraint[i];
      if c == '=' {
      } else if c == '+' || c == '&' {
        if !output {
          return Some(BadModifier), op, regs;
        }
        mask := BOTH;
        rw := rw || c == '+';
      } else {
        var grant := TryLetter(c, op, output, regs, mask);
        if !IsLetter(c) {
          return Some(Unsatisfied), op, regs;
        }
        if grant.Some? {
          return None, WithGrant(op.(isRw := rw), grant.value), Marked(regs, grant.value);
        }
      }
      i := i + 1;
    }
    return Some(Unsatisfied), op, regs;
  }

  lemma NoLetter()
    ensures !IsLetter('+') && !IsLetter('&') && !IsLetter('=')
  {
  }

  /** The case of one letter. */
  method TryLetter(c: char, op: Operand, output: bool, regs: seq<Use>, mask: Use) returns (grant: Option<Grant>)
    requires |regs| == REGS
    ensures grant == Try(c, op, output, regs, mask)
  {
    hide Meets;
    grant := None;
    var limit, use, memory := 0, mask, false;
    if c == 'A' {
      return if Meets(regs[0], mask) || Meets(regs[2], mask) then None else Some(Grant({0, 2}, mask, false));
    } else if FixedReg(c) >= 0 {
      return if Meets(regs[FixedReg(c)], mask) then None else Some(Grant({FixedReg(c)}, mask, false));
    } else if c == 'q' {
      limit := 4;
    } else if c == 'r' || c == 'R' || c == 'p' {
      limit := REGS;
    } else if c == 'e' || c == 'i' {
      return if op.place.Constant? then Some(Grant({}, mask, false)) else None;
    } else if c == 'I' || c == 'N' || c == 'M' {
      return if op.place == Constant(false) then Some(Grant({}, mask, false)) else None;
    } else if c == 'm' || c == 'g' {
      if !((output || c == 'm') && op.place.FramePointer?) {
        return Some(Grant({}, mask, false));
      }
      limit, use, memory := REGS, IN, true;
    } else {
      return None;
    }
    var r := LowestFreeRegister(regs, limit, use);
    grant := if r < limit then Some(Grant({r}, use, memory)) else None;
  }

  // ---------------------------------------------------------------- what a reference names

  /** The decimal digits of a number, without leading zeros. */
  function Decimal(n: nat): string {
    if n < 10 then [Digit(n)] else Decimal(n / 10) + [Digit(n % 10)]
  }

  function Digit(d: nat): char
    requires d < 10
  {
    "0123456789"[d]
  }

  lemma DigitIs(d: nat)
    requires d < 10
    ensures IsDigit(Digit(d)) && (Digit(d) - '0') as nat == d
  {
  }

  lemma {:induction false} NumberAppend(s: string, d: nat, index: nat)
    requires d < 10 && forall k :: 0 <= k < |s| ==> IsDigit(s[k])
    ensures Number(s + [Digit(d)], index) == 10 * Number(s, index) + d
    decreases s
  {
    DigitIs(d);
    if s == [] {
      assert [Digit(d)][1..] == [] && s + [Digit(d)] == [Digit(d)];
    } else {
      assert (s + [Digit(d)])[1..] == s[1..] + [Digit(d)];
      NumberAppend(s[1..], d, 10 * index + (s[0] - '0') as nat);
    }
  }

  lemma {:induction false} NumberOfDecimal(n: nat)
    ensures Number(Decimal(n), 0) == n && Decimal(n) != [] && forall k :: 0 <= k < |Decimal(n)| ==> IsDigit(Decimal(n)[k])
  {
    DigitIs(n % 10);
    if n < 10 {
      assert Decimal(n)[1..] == [];
    } else {
      NumberOfDecimal(n / 10);
      NumberAppend(Decimal(n / 10), n % 10, 0);
    }
  }

  /** A reference by number names the operand of that number, one by name in brackets the first operand of that name. */
  lemma ReferenceNames(operands: seq<Operand>, n: nat, name: string)
    ensures FindConstraint(operands, Decimal(n)) == if n < |operands| then n else -1
    ensures ']' !in name ==>
              var k := FindConstraint(operands, "[" + name + "]");
              if k >= 0 then operands[k].name == Some(name) && forall j :: 0 <= j < k ==> operands[j].name != Some(name)
              else forall j :: 0 <= j < |operands| ==> operands[j].name != Some(name)
  {
    NumberOfDecimal(n);
    if ']' !in name {
      var s := "[" + name + "]";
      assert s[1..] == name + "]" && (name + "]")[|name|] == ']';
      assert Bracket(s[1..]) == |name| && s[1..1 + |name|] == name;
    }
  }
}
