/** ModRM and SIB bytes: asm_modrm (i386-asm.c) and gen_modrm (i386-gen.c) against a decoder written from section 2.1.5 of volume 2A of the Intel SDM. */
module AddressModes {
  import opened Bytes
  import opened Options

  const ESP: nat := 4
  const EBP: nat := 5

  type reg = x: int | 0 <= x < 8

  /** What a ModRM operand denotes: a register, or base plus index shifted plus displacement. */
  datatype Address = Register(r: reg) | Memory(base: Option<reg>, index: Option<reg>, shift: nat, disp: u32)

  /** The reg field, the operand, and how many bytes it took. */
  datatype Decoded = Decoded(field: reg, address: Address, size: nat) | Truncated

  // ---------------------------------------------------------------- the decoder

  function Disp8(s: seq<byte>, at: nat): u32
    requires at < |s|
  {
    var d: int := s[at];
    if d < 128 then d else TWO32 + d - 256
  }

  /** The displacement that follows a base: none, one byte or four, by the mod field. */
  function WithDisp(s: seq<byte>, at: nat, mod: int, field: reg, base: Option<reg>, index: Option<reg>, shift: nat): Decoded {
    if mod == 0 then Decoded(field, Memory(base, index, shift, 0), at)
    else if mod == 1 then
      if at + 1 <= |s| then Decoded(field, Memory(base, index, shift, Disp8(s, at)), at + 1) else Truncated
    else if at + 4 <= |s| then Decoded(field, Memory(base, index, shift, ReadLe32(s, at)), at + 4) else Truncated
  }

  /** A 32-bit displacement with no base. */
  function NoBase(s: seq<byte>, at: nat, field: reg, index: Option<reg>, shift: nat): Decoded {
    if at + 4 <= |s| then Decoded(field, Memory(None, index, shift, ReadLe32(s, at)), at + 4) else Truncated
  }

  /** Tables 2-2 and 2-3: the 32-bit addressing forms with the ModRM and the SIB byte. */
  function Decode(s: seq<byte>): Decoded {
    if |s| < 1 then Truncated else
    var b: int := s[0];
    var mod, field, rm := b / 64, b / 8 % 8, b % 8;
    if mod == 3 then Decoded(field, Register(rm), 1)
    else if rm == ESP then
      if |s| < 2 then Truncated else
      var sib: int := s[1];
      var shift, x, base := sib / 64, sib / 8 % 8, sib % 8;
      var index := if x == ESP then None else Some(x);
      if base == EBP && mod == 0 then NoBase(s, 2, field, index, if x == ESP then 0 else shift)
      else WithDisp(s, 2, mod, field, Some(base), index, if x == ESP then 0 else shift)
    else if rm == EBP && mod == 0 then NoBase(s, 1, field, None, 0)
    else WithDisp(s, 1, mod, field, Some(rm), None, 0)
  }

  /** The address for given register contents. */
  function Effective(a: Address, regs: seq<u32>): int
    requires a.Memory? && |regs| == 8
  {
    ((if a.base.Some? then regs[a.base.value] else 0)
     + (if a.index.Some? then regs[a.index.value] * Scale(a.shift) else 0) + a.disp) % TWO32
  }

  function Scale(shift: nat): nat {
    if shift == 0 then 1 else if shift == 1 then 2 else if shift == 2 then 4 else 8
  }

  // ---------------------------------------------------------------- the encoder

  /**
   * The expression of an operand: a number, a symbol given by the address the linker will find for it, and whether a label of the
   * section being assembled was subtracted, which leaves the section's own address to subtract.
   */
  datatype Expr = Expr(v: int, sym: Option<u32>, pcrel: bool)

  /** An operand of the assembler: a general, MMX or SSE register, or a place in memory. */
  datatype Operand = OpReg(r: reg) | OpMem(base: Option<reg>, index: Option<reg>, shift: int, e: Expr)

  predicate OperandOk(op: Operand) {
    op.OpMem? ==> 0 <= op.shift < 4
  }

  /** The value of an expression in a section at address `text`. */
  function ValueOf(e: Expr, text: u32): int {
    e.v + (if e.sym.Some? then e.sym.value else 0) - if e.pcrel then text else 0
  }

  /** The operand's address as the programmer wrote it. */
  function Value(op: Operand, text: u32, regs: seq<u32>): int
    requires op.OpMem? && OperandOk(op) && |regs| == 8
  {
    ((if op.base.Some? then regs[op.base.value] else 0)
     + (if op.index.Some? then regs[op.index.value] * Scale(op.shift) else 0) + ValueOf(op.e, text)) % TWO32
  }

  /** A relocation of the word at `at`, by the symbol's value or by its distance from the word. */
  datatype Reloc = Absolute(at: nat) | Relative(at: nat)

  /** What the linker adds to the word, the code being placed at `start`. */
  function Adjustment(r: Reloc, sym: Option<u32>, start: int): int {
    (if sym.Some? then sym.value else 0) - if r.Relative? then start + r.at else 0
  }

  function Linked(code: seq<byte>, reloc: Option<Reloc>, sym: Option<u32>, start: int): seq<byte> {
    if reloc.Some? && reloc.value.at + 4 <= |code| then
      code[..reloc.value.at]
      + Le32((ReadLe32(code, reloc.value.at) + Adjustment(reloc.value, sym, start)) % TWO32) + code[reloc.value.at + 4..]
    else code
  }

  /** gen_addr32: the word and, with a symbol, a relocation on it; where the code goes makes no difference. */
  method Addr32(code: seq<byte>, v: int, sym: Option<u32>) returns (out: seq<byte>, reloc: Option<Reloc>)
    ensures reloc == if sym.Some? then Some(Absolute(|code|)) else None
    ensures forall start: int :: Linked(out, reloc, sym, start) == code + Le32((v + if sym.Some? then sym.value else 0) % TWO32)
  {
    out := code + Le32(v % TWO32);
    reloc := if sym.Some? then Some(Absolute(|code|)) else None;
    if sym.Some? {
      ReadLe32OfLe32(out, |code|, v % TWO32);
      assert out[..|code|] == code;
      AddMod(sym.value, v);
    }
  }

  /** gen_addrpc32: the word is relocated by its own distance from the symbol, so its offset in the section is put in first. */
  method AddrPc32(code: seq<byte>, ind: nat, v: int, sym: Option<u32>, ghost text: u32) returns (out: seq<byte>, reloc: Option<Reloc>)
    ensures reloc == Some(Relative(|code|))
    ensures Linked(out, reloc, sym, text + ind) == code + Le32((v - 4 + (if sym.Some? then sym.value else 0) - text - ind - |code|) % TWO32)
  {
    out := code + Le32((v - 4) % TWO32);
    reloc := Some(Relative(|code|));
    ReadLe32OfLe32(out, |code|, (v - 4) % TWO32);
    assert out[..|code|] == code;
    AddMod(Adjustment(reloc.value, sym, text + ind), v - 4);
  }

  /** gen_expr32 at offset `ind + |code|` of the section: the word, and a relocation for a symbol or a distance. */
  method Expr32(code: seq<byte>, ind: nat, e: Expr, ghost text: u32) returns (out: seq<byte>, reloc: Option<Reloc>)
    ensures reloc.Some? <==> e.sym.Some? || e.pcrel
    ensures Linked(out, reloc, e.sym, text + ind) == code + Le32(ValueOf(e, text) % TWO32)
  {
    if e.pcrel {
      out, reloc := AddrPc32(code, ind, e.v + ind + |code| + 4, e.sym, text);
    } else {
      out, reloc := Addr32(code, e.v, e.sym);
    }
  }

  /** A distance without a symbol that fits a byte is emitted as if it were a number, when there is a base register. */
  predicate DropsDistance(op: Operand)
    requires op.OpMem?
  {
    op.e.pcrel && op.e.sym.None? && op.base.Some? && -128 <= op.e.v < 128
  }

  function Displacement(op: Operand, text: u32): int
    requires op.OpMem?
  {
    if DropsDistance(op) then op.e.v else ValueOf(op.e, text)
  }

  /** What the bytes denote: a register, or the memory operand with an esp index dropped. */
  function Denoted(op: Operand, text: u32): Address
    requires OperandOk(op)
  {
    match op
    case OpReg(r) => Register(r)
    case OpMem(base, index, shift, e) =>
      var kept := if index == Some(ESP) then None else index;
      Memory(base, kept, if kept.Some? then shift else 0, Displacement(op, text) % TWO32)
  }

  /** asm_modrm at offset `ind` of a section that will stand at `text`. */
  method AsmModrm(field: reg, op: Operand, ind: nat, ghost text: u32) returns (code: seq<byte>, reloc: Option<Reloc>)
    requires OperandOk(op)
    ensures Decode(Linked(code, reloc, SymOf(op), text + ind)) == Decoded(field, Denoted(op, text), |code|)
  {
    hide ReadLe32, Le32, Decode, Linked, Denoted;
    reloc := None;
    if op.OpReg? {
      code := [0xc0 + field * 8 + op.r];
      RegisterDecodes(field, op, text, text + ind);
    } else if op.base.None? && op.index.None? {
      code := [0x05 + field * 8];
      code, reloc := Expr32(code, ind, op.e, text);
      FixedDecodes(field, op, text);
      LinkedSize(code, reloc, op.e.sym, text + ind);
    } else {
      var sibBase := if op.base.Some? then op.base.value else 5;
      var mod := if op.base.None? then 0x00
                 else if op.e.v == 0 && op.e.sym.None? && op.base.value != 5 then 0x00
                 else if -128 <= op.e.v < 128 && op.e.sym.None? then 0x40
                 else 0x80;
      var rm := if op.index.Some? then 4 else op.base.value;
      code := [mod + field * 8 + rm];
      if rm == 4 {
        var index := if op.index.Some? then op.index.value else 4;
        code := code + [op.shift * 64 + index * 8 + sibBase];
      }
      ghost var head := code;
      if mod == 0x40 {
        code := code + [op.e.v % 256];
        LinkedSame(code);
      } else if mod == 0x80 || op.base.None? {
        code, reloc := Expr32(code, ind, op.e, text);
        LinkedSize(code, reloc, op.e.sym, text + ind);
      } else {
        LinkedSame(code);
      }
      ghost var linked := Linked(code, reloc, op.e.sym, text + ind);
      DispOf(op, text, mod / 64, head, linked);
      if rm == 4 {
        SibDecodes(linked, mod / 64, field, op, text);
      } else {
        BaseDecodes(linked, mod / 64, field, op, text);
      }
    }
  }

  function SymOf(op: Operand): Option<u32> {
    if op.OpMem? then op.e.sym else None
  }

  lemma LinkedSize(code: seq<byte>, reloc: Option<Reloc>, sym: Option<u32>, start: int)
    ensures |Linked(code, reloc, sym, start)| == |code|
  {
  }

  lemma LinkedSame(code: seq<byte>)
    ensures forall sym: Option<u32>, start: int :: Linked(code, None, sym, start) == code
  {
  }

  lemma RegisterDecodes(field: reg, op: Operand, text: u32, start: int)
    requires op.OpReg?
    ensures Decode(Linked([0xc0 + field * 8 + op.r], None, None, start)) == Decoded(field, Denoted(op, text), 1)
  {
    ModFields(3, field, op.r);
  }

  lemma FixedDecodes(field: reg, op: Operand, text: u32)
    requires OperandOk(op) && op.OpMem? && op.base.None? && op.index.None?
    ensures Decode([0x05 + field * 8] + Le32(ValueOf(op.e, text) % TWO32)) == Decoded(field, Denoted(op, text), 5)
  {
    hide ReadLe32, Le32;
    ModFields(0, field, 5);
    DispDecodes([0x05 + field * 8], ValueOf(op.e, text));
  }

  /** The displacement bytes stand after the head, as many as the mod field says. */
  predicate DispHere(s: seq<byte>, at: nat, mod: int, op: Operand, text: u32)
    requires op.OpMem?
  {
    if op.base.None? || mod == 2 then |s| == at + 4 && ReadLe32(s, at) == Displacement(op, text) % TWO32
    else if mod == 1 then |s| == at + 1 && Disp8(s, at) == Displacement(op, text) % TWO32
    else |s| == at && Displacement(op, text) == 0
  }

  lemma DispOf(op: Operand, text: u32, mod: int, head: seq<byte>, s: seq<byte>)
    requires op.OpMem? && head <= s
    requires mod == if op.base.None? then 0 else if op.e.v == 0 && op.e.sym.None? && op.base.value != 5 then 0
                    else if -128 <= op.e.v < 128 && op.e.sym.None? then 1 else 2
    requires s == if op.base.None? || mod == 2 then head + Le32(ValueOf(op.e, text) % TWO32)
                  else if mod == 1 then head + [op.e.v % 256] else head
    ensures DispHere(s, |head|, mod, op, text)
  {
    hide ReadLe32, Le32;
    if op.base.None? || mod == 2 {
      DispDecodes(head, Displacement(op, text));
    } else if mod == 1 {
      Low8(op.e.v);
    }
  }

  lemma BaseDecodes(s: seq<byte>, mod: int, field: reg, op: Operand, text: u32)
    requires OperandOk(op) && op.OpMem? && op.base.Some? && op.index.None? && op.base.value != 4
    requires 0 <= mod < 3 && (mod == 0 ==> op.base.value != 5)
    requires |s| >= 1 && s[0] == mod * 64 + field * 8 + op.base.value && DispHere(s, 1, mod, op, text)
    ensures Decode(s) == Decoded(field, Denoted(op, text), |s|)
  {
    hide ReadLe32, Le32, Disp8;
    ModFields(mod, field, op.base.value);
  }

  lemma SibDecodes(s: seq<byte>, mod: int, field: reg, op: Operand, text: u32)
    requires OperandOk(op) && op.OpMem? && (op.index.None? ==> op.base == Some(4))
    requires 0 <= mod < 3 && (mod == 0 ==> op.base != Some(5)) && (op.base.None? ==> mod == 0)
    requires |s| >= 2 && s[0] == mod * 64 + field * 8 + 4
    requires s[1] == op.shift * 64 + (if op.index.Some? then op.index.value else 4) * 8
                     + (if op.base.Some? then op.base.value else 5)
    requires DispHere(s, 2, mod, op, text)
    ensures Decode(s) == Decoded(field, Denoted(op, text), |s|)
  {
    hide ReadLe32, Le32, Disp8;
    ModFields(mod, field, 4);
    SibFields(op.shift, if op.index.Some? then op.index.value else 4, if op.base.Some? then op.base.value else 5);
  }

  lemma SibFields(shift: int, index: int, base: int)
    requires 0 <= shift < 4 && 0 <= index < 8 && 0 <= base < 8
    ensures var sib := shift * 64 + index * 8 + base;
            0 <= sib < 256 && sib / 64 == shift && sib / 8 % 8 == index && sib % 8 == base
  {
  }

  lemma ModFields(mod: int, field: int, rm: int)
    requires 0 <= mod < 4 && 0 <= field < 8 && 0 <= rm < 8
    ensures var b := mod * 64 + field * 8 + rm;
            0 <= b < 256 && b / 64 == mod && b / 8 % 8 == field && b % 8 == rm
  {
  }

  lemma Low8(v: int)
    requires -128 <= v < 128
    ensures v % 256 == (if v < 0 then v + 256 else v) && v % TWO32 == if v < 0 then TWO32 + v else v
  {
  }

  lemma DispDecodes(head: seq<byte>, d: int)
    ensures var s := head + Le32(d % TWO32); |s| == |head| + 4 && ReadLe32(s, |head|) == d % TWO32
  {
    ReadLe32OfLe32(head + Le32(d % TWO32), |head|, d % TWO32);
  }

  // ---------------------------------------------------------------- results

  /** The encoded operand and the written one agree for this place of the section and these register contents. */
  predicate AgreesOn(op: Operand, text: u32, regs: seq<u32>)
    requires OperandOk(op) && op.OpMem? && |regs| == 8
  {
    Effective(Denoted(op, text), regs) == Value(op, text, regs)
  }

  lemma AddMod(x: int, d: int)
    ensures (x + d % TWO32) % TWO32 == (x + d) % TWO32
  {
  }

  /** The encoding means what was written, wherever the section goes and whatever the registers hold, exactly when the index is
      not esp and no distance is dropped. */
  lemma EncodingIsFaithfulIff(op: Operand)
    requires OperandOk(op) && op.OpMem?
    ensures (forall text: u32, regs: seq<u32> | |regs| == 8 :: AgreesOn(op, text, regs))
            <==> op.index != Some(ESP) && !DropsDistance(op)
  {
    if op.index == Some(ESP) {
      EspIndexIsDropped(op);
    } else if DropsDistance(op) {
      DistanceIsDropped(op);
    } else {
      forall text: u32, regs: seq<u32> | |regs| == 8 ensures AgreesOn(op, text, regs) {
        var x := (if op.base.Some? then regs[op.base.value] else 0)
                 + (if op.index.Some? then regs[op.index.value] * Scale(op.shift) else 0);
        AddMod(x, Displacement(op, text));
      }
    }
  }

  /** With esp holding one and the rest zero, an esp index is missed. */
  lemma EspIndexIsDropped(op: Operand)
    requires OperandOk(op) && op.OpMem? && op.index == Some(ESP)
    ensures !AgreesOn(op, 0, [0, 0, 0, 0, 1, 0, 0, 0])
  {
    var regs: seq<u32> := [0, 0, 0, 0, 1, 0, 0, 0];
    var x := if op.base.Some? then regs[op.base.value] else 0;
    AddMod(x, Displacement(op, 0));
    var d, k := x + Displacement(op, 0), Scale(op.shift);
    assert Effective(Denoted(op, 0), regs) == d % TWO32;
    assert Value(op, 0, regs) == (d + k) % TWO32;
    Moved(d, k);
  }

  /** In a section at address one, a dropped distance is one off. */
  lemma DistanceIsDropped(op: Operand)
    requires OperandOk(op) && op.OpMem? && op.index != Some(ESP) && DropsDistance(op)
    ensures !AgreesOn(op, 1, [0, 0, 0, 0, 0, 0, 0, 0])
  {
    var regs: seq<u32> := [0, 0, 0, 0, 0, 0, 0, 0];
    assert Effective(Denoted(op, 1), regs) == op.e.v % TWO32;
    assert Value(op, 1, regs) == (op.e.v - 1) % TWO32;
    Moved(op.e.v - 1, 1);
  }

  lemma Moved(d: int, k: int)
    requires 0 < k < TWO32
    ensures (d + k) % TWO32 != d % TWO32
  {
    var r := d % TWO32;
    assert (d + k) % TWO32 == (r + k) % TWO32;
  }

  /** Where the compiler keeps a value gen_modrm refers to: a fixed address, a frame slot or what a register points at. */
  datatype Location = Fixed(sym: Option<u32>) | Frame | Through(r: reg)

  function LocationAddress(l: Location, c: int): Address
  {
    match l
    case Fixed(sym) => Memory(None, None, 0, (c + if sym.Some? then sym.value else 0) % TWO32)
    case Frame => Memory(Some(EBP), None, 0, c % TWO32)
    case Through(r) => Memory(Some(r), None, 0, 0)
  }

  /** gen_modrm without position-independent code, after the opcode; the compiler's integer registers are eax to ebx. */
  method GenModrm(opReg: reg, l: Location, c: int, ghost start: int) returns (code: seq<byte>, reloc: Option<Reloc>)
    requires l.Through? ==> l.r < 4
    requires -0x8000_0000 <= c < 0x8000_0000
    ensures Decode(Linked(code, reloc, if l.Fixed? then l.sym else None, start)) == Decoded(opReg, LocationAddress(l, c), |code|)
  {
    hide ReadLe32, Le32, Linked;
    reloc := None;
    match l {
      case Fixed(sym) =>
        code, reloc := Addr32([0x05 + opReg * 8], c, sym);
        LinkedSize(code, reloc, sym, start);
        ModFields(0, opReg, 5);
        DispDecodes([0x05 + opReg * 8], c + if sym.Some? then sym.value else 0);
      case Frame =>
        if -128 <= c < 128 {
          code := [0x45 + opReg * 8, c % 256];
          LinkedSame(code);
          ModFields(1, opReg, EBP);
          Low8(c);
        } else {
          code := [0x85 + opReg * 8] + Le32(c % TWO32);
          LinkedSame(code);
          ModFields(2, opReg, EBP);
          DispDecodes([0x85 + opReg * 8], c);
        }
      case Through(r) =>
        code := [0x00 + opReg * 8 + r];
        LinkedSame(code);
        ModFields(0, opReg, r);
    }
  }
}
