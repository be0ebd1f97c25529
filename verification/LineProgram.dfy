/** The DWARF line-number program: tcc_debug_line and its companions in tccdbg.c against the opcode loop of rt_printline_dwarf in tccrun.c. */
module LineProgram {
  import opened Bytes
  import opened Leb128
  import opened Options

  const LINE_BASE := -5
  const LINE_RANGE := 14
  const OPCODE_BASE := 13
  /** FILE_TABLE_SIZE: the reader keeps the names of this many files. */
  const FILE_TABLE_SIZE := 512

  const ADVANCE_PC: byte := 2
  const ADVANCE_LINE: byte := 3
  const SET_FILE: byte := 4
  const CONST_ADD_PC: byte := 8
  const FIXED_ADVANCE_PC: byte := 9
  const FUNCTION_NAME: byte := 254
  /** How many operands each standard opcode takes, from opcode 1 on. */
  const OPERANDS: seq<nat> := [0, 1, 1, 1, 1, 0, 0, 0, 1, 0, 0, 1]

  // ---------------------------------------------------------------- the reader

  /** What the reader knows of one compilation unit: the DWARF version and the length of its file table. */
  datatype Unit = Unit(v5: bool, files: nat)

  /** The reader's variables; `file` is an index into the file table, `func` a name and the pc where it was read. */
  datatype Registers = Registers(pc: u32, line: int, file: Option<nat>, func: Option<(seq<byte>, u32)>)

  /** One opcode: the end of the unit, new registers, or an advance that is checked against the wanted pc. */
  datatype Opcode = Stop | Plain(regs: Registers, next: nat) | Advance(pc: u32, delta: int, next: nat)

  datatype Outcome = Found(regs: Registers) | Missed(regs: Registers)

  function Started(u: Unit): Registers {
    Registers(0, 1, if u.files >= 1 then Some(0) else None, None)
  }

  function SetFile(u: Unit, r: Registers, operand: nat): Registers {
    var i := if operand > 0 && !u.v5 then operand - 1 else operand;
    if i < FILE_TABLE_SIZE && i < u.files then r.(file := Some(i)) else r
  }

  function Skip(s: seq<byte>, at: nat, n: nat): (next: nat)
    ensures next >= at
    decreases n
  {
    if n == 0 then at else (ReadUAdvances(s, at); Skip(s, ReadU(s, at).1, n - 1))
  }

  /** An extended opcode: its length, then its own number. */
  function Extended(s: seq<byte>, at: nat, r: Registers): Opcode {
    var (len, cp) := ReadU(s, at);
    if len % TWO32 == 0 then Stop else
    var next := cp + len % TWO32;
    match ByteAt(s, cp)
    case 2 => Plain(r.(pc := if cp + 1 + 3 < |s| then ReadLe32(s, cp + 1) else 0), next)
    case 254 => Plain(r.(func := Some((CString(if cp + 1 <= |s| then s[cp + 1..] else []), r.pc))), next)
    case _ => Plain(r, next)
  }

  /** dwarf_read_2: a little-endian half word, zero when it is cut off. */
  function Half(s: seq<byte>, at: nat): nat {
    if at + 1 < |s| then (var lo: nat, hi: nat := s[at], s[at + 1]; lo + 256 * hi) else 0
  }

  function Decode(u: Unit, s: seq<byte>, at: nat, r: Registers): Opcode
    requires at < |s|
  {
    var op := s[at];
    if op >= OPCODE_BASE then
      Advance((r.pc + (op - OPCODE_BASE) / LINE_RANGE) % TWO32, (op - OPCODE_BASE) % LINE_RANGE + LINE_BASE, at + 1)
    else if op == 0 then Extended(s, at + 1, r)
    else if op == ADVANCE_PC then
      var (n, next) := ReadU(s, at + 1);
      Advance((r.pc + n) % TWO32, 0, next)
    else if op == ADVANCE_LINE then
      var (n, next) := ReadS(s, at + 1);
      Plain(r.(line := ToInt32(r.line + n)), next)
    else if op == SET_FILE then
      var (n, next) := ReadU(s, at + 1);
      Plain(SetFile(u, r, n % TWO32), next)
    else if op == CONST_ADD_PC then
      Advance((r.pc + (255 - OPCODE_BASE) / LINE_RANGE) % TWO32, 0, at + 1)
    else if op == FIXED_ADVANCE_PC then
      Advance((r.pc + Half(s, at + 1)) % TWO32, 0, if at + 2 < |s| then at + 3 else at + 1)
    else Plain(r, Skip(s, at + 1, OPERANDS[op - 1]))
  }

  lemma {:induction false} ReadUFromAdvances(s: seq<byte>, at: nat, i: nat)
    ensures ReadUFrom(s, at, i).1 >= at
    decreases MAX_BYTES - i
  {
    if i < MAX_BYTES && ByteAt(s, at) >= 128 {
      ReadUFromAdvances(s, NextAt(s, at), i + 1);
    }
  }

  lemma {:induction false} ReadSFromAdvances(s: seq<byte>, at: nat, i: nat)
    ensures ReadSFrom(s, at, i).1 >= at
    decreases MAX_BYTES - i
  {
    if i < MAX_BYTES && ByteAt(s, at) >= 128 {
      ReadSFromAdvances(s, NextAt(s, at), i + 1);
    }
  }

  lemma ReadUAdvances(s: seq<byte>, at: nat)
    ensures ReadU(s, at).1 >= at
  {
    ReadUFromAdvances(s, at, 0);
  }

  /** Every opcode moves the reader on, so its loop ends on any bytes at all. */
  lemma DecodeAdvances(u: Unit, s: seq<byte>, at: nat, r: Registers)
    requires at < |s|
    ensures Decode(u, s, at, r).Plain? || Decode(u, s, at, r).Advance? ==> Decode(u, s, at, r).next > at
  {
    hide ReadUFrom, ReadSFrom, CString, ReadLe32, SetFile, ToInt32;
    ReadUFromAdvances(s, at + 1, 0);
    ReadSFromAdvances(s, at + 1, 0);
  }

  /** The opcode loop: it stops at the first advance whose range holds the wanted pc, before the line moves. */
  function Lookup(u: Unit, s: seq<byte>, at: nat, r: Registers, wanted: u32): Outcome
    decreases |s| - at
  {
    if at >= |s| then Missed(r) else
    DecodeAdvances(u, s, at, r);
    match Decode(u, s, at, r)
    case Stop => Missed(r)
    case Plain(regs, next) => Lookup(u, s, next, regs, wanted)
    case Advance(pc, delta, next) =>
      if r.pc <= wanted <= pc then Found(r)
      else Lookup(u, s, next, r.(pc := pc, line := ToInt32(r.line + delta)), wanted)
  }

  /** rt_printline_dwarf from the end of the unit's header on. */
  method Search(u: Unit, s: seq<byte>, wanted: u32) returns (out: Outcome)
    ensures out == Lookup(u, s, 0, Started(u), wanted)
  {
    hide ReadU, ReadS, ReadLe32, CString, ToInt32;
    var r := Started(u);
    var at := 0;
    while at < |s|
      invariant Lookup(u, s, at, r, wanted) == Lookup(u, s, 0, Started(u), wanted)
      decreases |s| - at
    {
      var op := s[at];
      ghost var decoded := Decode(u, s, at, r);
      DecodeAdvances(u, s, at, r);
      var delta := 0;
      var pc := r.pc;
      var checked := true;
      if op >= OPCODE_BASE {
        pc := (r.pc + (op - OPCODE_BASE) / LINE_RANGE) % TWO32;
        delta := (op - OPCODE_BASE) % LINE_RANGE + LINE_BASE;
        at := at + 1;
      } else if op == ADVANCE_PC {
        var n;
        n, at := ReadUleb128(s, at + 1);
        pc := (r.pc + n) % TWO32;
      } else if op == CONST_ADD_PC {
        pc := (r.pc + (255 - OPCODE_BASE) / LINE_RANGE) % TWO32;
        at := at + 1;
      } else if op == FIXED_ADVANCE_PC {
        pc := (r.pc + Half(s, at + 1)) % TWO32;
        at := if at + 2 < |s| then at + 3 else at + 1;
      } else {
        checked := false;
        var stop;
        stop, r, at := PlainOpcode(u, s, at, r);
        if stop {
          return Missed(r);
        }
      }
      if checked {
        assert decoded == Advance(pc, delta, at);
        if r.pc <= wanted <= pc {
          return Found(r);
        }
        r := r.(pc := pc, line := ToInt32(r.line + delta));
      }
    }
    out := Missed(r);
  }

  /** The opcodes that are not checked against the wanted pc. */
  method PlainOpcode(u: Unit, s: seq<byte>, from: nat, r: Registers) returns (stop: bool, regs: Registers, next: nat)
    requires from < |s| && s[from] < OPCODE_BASE && s[from] !in [ADVANCE_PC, CONST_ADD_PC, FIXED_ADVANCE_PC]
    ensures Decode(u, s, from, r) == if stop then Stop else Plain(regs, next)
    ensures stop ==> regs == r
  {
    hide ReadLe32, CString, ToInt32, ReadUFrom, ReadSFrom;
    var op := s[from];
    stop := false;
    regs := r;
    next := from + 1;
    if op == 0 {
      var len, cp := ReadUleb128(s, next);
      len := len % TWO32;
      next := cp + len;
      if len == 0 {
        stop := true;
        return;
      }
      var sub := ByteAt(s, cp);
      if sub == 2 {
        regs := r.(pc := if cp + 1 + 3 < |s| then ReadLe32(s, cp + 1) else 0);
      } else if sub == FUNCTION_NAME {
        regs := r.(func := Some((CString(if cp + 1 <= |s| then s[cp + 1..] else []), r.pc)));
      }
    } else if op == ADVANCE_LINE {
      var n;
      n, next := ReadSleb128(s, next);
      regs := r.(line := ToInt32(r.line + n));
    } else if op == SET_FILE {
      var n;
      n, next := ReadUleb128(s, next);
      regs := SetFile(u, r, n % TWO32);
    } else {
      var j := 0;
      while j < OPERANDS[op - 1]
        invariant 0 <= j <= OPERANDS[op - 1]
        invariant Skip(s, next, OPERANDS[op - 1] - j) == Skip(s, from + 1, OPERANDS[op - 1])
      {
        var _, after := ReadUleb128(s, next);
        next := after;
        j := j + 1;
      }
    }
  }

  // ---------------------------------------------------------------- what the writer is told

  /** A line event, the name of a function, or a prologue or epilogue mark. */
  datatype Item = Line(ind: nat, line: nat, file: nat) | Function(name: seq<byte>) | Mark(op: byte)

  /** The writer's last_pc, last_line and last_file. */
  datatype Place = Place(pc: nat, line: int, file: nat)

  const START := Place(0, 1, 0)

  function Moved(p: Place, item: Item): Place {
    if item.Line? then Place(item.ind, item.line, item.file) else p
  }

  /** What the compiler guarantees: offsets never go back, line numbers are non-negative ints, and the special-opcode number does not overflow an int. */
  predicate ItemOk(p: Place, item: Item) {
    match item
    case Line(ind, line, file) =>
      p.pc <= ind && 0 <= p.line < 0x8000_0000 && line < 0x8000_0000 && file < 0x8000_0000
      && ind - p.pc < 0x800_0000
      && LINE_RANGE * (ind - p.pc) + (line - p.line) + OPCODE_BASE - LINE_BASE < 0x8000_0000
    case Function(name) => IsCString(name) && |name| < 0x7FFF_FFFE
    case Mark(op) => op == 10 || op == 11
  }

  predicate ItemsOk(p: Place, items: seq<Item>)
    decreases items
  {
    items == [] || (ItemOk(p, items[0]) && ItemsOk(Moved(p, items[0]), items[1..]))
  }

  function After(p: Place, items: seq<Item>): Place
    decreases items
  {
    if items == [] then p else After(Moved(p, items[0]), items[1..])
  }

  // ---------------------------------------------------------------- what the writer emits

  /** One opcode that moves both: the pc by `dpc`, the line by `dline`. */
  function SpecialNumber(dpc: nat, dline: int): int {
    dpc * LINE_RANGE + dline + OPCODE_BASE - LINE_BASE
  }

  predicate IsSpecial(dpc: nat, dline: int) {
    LINE_BASE <= dline <= OPCODE_BASE + LINE_BASE && OPCODE_BASE <= SpecialNumber(dpc, dline) <= 255
  }

  function PcBytes(dpc: nat): seq<byte> {
    if dpc == 0 then [] else if IsSpecial(dpc, 0) then [SpecialNumber(dpc, 0)] else [ADVANCE_PC] + EncodeU(dpc)
  }

  function LineBytes(dline: int): seq<byte> {
    if dline == 0 then [] else if IsSpecial(0, dline) then [SpecialNumber(0, dline)]
    else [ADVANCE_LINE] + EncodeS(dline) + [18]
  }

  function AdvanceBytes(dpc: nat, dline: int): seq<byte> {
    if dpc != 0 && IsSpecial(dpc, dline) then [SpecialNumber(dpc, dline)] else PcBytes(dpc) + LineBytes(dline)
  }

  function FileBytes(p: Place, file: nat): seq<byte> {
    if file != p.file then [SET_FILE] + EncodeU(file) else []
  }

  function Chunk(p: Place, item: Item): seq<byte>
    requires ItemOk(p, item)
  {
    match item
    case Line(ind, line, file) => FileBytes(p, file) + AdvanceBytes(ind - p.pc, line - p.line)
    case Function(name) => [0] + EncodeU(|name| + 2) + [FUNCTION_NAME] + name + [0]
    case Mark(op) => [op]
  }

  function Chunks(p: Place, items: seq<Item>): seq<byte>
    requires ItemsOk(p, items)
    decreases items
  {
    if items == [] then [] else Chunk(p, items[0]) + Chunks(Moved(p, items[0]), items[1..])
  }

  function Prologue(base: u32): seq<byte> {
    [0] + EncodeU(5) + [2] + Le32(base)
  }

  function Epilogue(): seq<byte> {
    [0] + EncodeU(1) + [1]
  }

  function Program(base: u32, items: seq<Item>): seq<byte>
    requires ItemsOk(START, items)
  {
    Prologue(base) + Chunks(START, items) + Epilogue()
  }

  lemma {:induction false} ChunksSnoc(p: Place, items: seq<Item>, item: Item)
    requires ItemsOk(p, items) && ItemOk(After(p, items), item)
    ensures ItemsOk(p, items + [item]) && After(p, items + [item]) == Moved(After(p, items), item)
    ensures Chunks(p, items + [item]) == Chunks(p, items) + Chunk(After(p, items), item)
    decreases items
  {
    hide Chunk, ItemOk;
    if items == [] {
      assert [item][1..] == [];
    } else {
      assert (items + [item])[1..] == items[1..] + [item];
      ChunksSnoc(Moved(p, items[0]), items[1..], item);
    }
  }

  // ---------------------------------------------------------------- the writer

  class LineWriter {
    var lineData: seq<byte>
    var lastPc: nat
    var lastLine: int
    var lastFile: nat
    var curFile: nat
    var lastLineNum: int
    var newFile: bool
    /** What has been recorded so far. */
    ghost var items: seq<Item>

    ghost function Last(): Place
      reads this
    {
      Place(lastPc, lastLine, lastFile)
    }

    ghost predicate Valid()
      reads this
    {
      ItemsOk(START, items) && Last() == After(START, items)
      && lineData == Prologue(0) + Chunks(START, items)
    }

    /** The start of tcc_debug_start's line program. */
    constructor ()
      ensures Valid() && items == [] && curFile == 1 && lastLineNum == 0 && !newFile
    {
      lastPc, lastLine, lastFile, curFile := 0, 1, 0, 1;
      lastLineNum, newFile := 0, false;
      items := [];
      new;
      var data := WriteU([0], 5);
      data := data + [2];
      var i := 0;
      while i < 4
        invariant 0 <= i <= 4 && data == [0] + EncodeU(5) + [2] + seq(i, k => 0)
      {
        data := data + [0];
        i := i + 1;
      }
      assert Le32(0) == seq(4, k => 0);
      lineData := data;
    }

    /** tcc_debug_newfile, tcc_debug_bincl, tcc_debug_eincl: dwarf_file has picked this table entry. */
    method SelectFile(file: nat)
      requires Valid()
      modifies this`curFile, this`newFile
      ensures Valid() && curFile == file && newFile
    {
      curFile := file;
      newFile := true;
    }

    /** tcc_debug_line: a repeated line number of the same file records nothing. */
    method DebugLine(ind: nat, line: nat)
      requires Valid() && ItemOk(Last(), Line(ind, line, curFile))
      modifies this
      ensures Valid() && curFile == old(curFile) && !newFile && lastLineNum == line
      ensures items == old(items)
                       + (if line == if old(newFile) then 0 else old(lastLineNum) then [] else [Line(ind, line, old(curFile))])
    {
      hide Prologue, Chunks, Chunk, ItemsOk, After, AdvanceBytes, EncodeU;
      if newFile {
        newFile := false;
        lastLineNum := 0;
      }
      if lastLineNum == line {
        return;
      }
      lastLineNum := line;
      ghost var item := Line(ind, line, curFile);
      ChunksSnoc(START, items, item);
      LineChunk(Last(), ind, line, curFile);
      var lenPc := ind - lastPc;
      var lenLine := line - lastLine;
      var data := lineData;
      if curFile != lastFile {
        data := WriteU(data + [SET_FILE], curFile);
      }
      data := WriteAdvance(data, lenPc, lenLine);
      lastFile := curFile;
      assert data == lineData + Chunk(After(START, items), item);
      assert data == Prologue(0) + (Chunks(START, items) + Chunk(After(START, items), item));
      lineData := data;
      lastPc := ind;
      lastLine := line;
      items := items + [item];
    }

    /** The first line of a file that was entered, left or renamed: it is recorded for that file, whatever line came last. */
    method FirstLineOfFile(file: nat, ind: nat, line: nat)
      requires Valid() && ItemOk(Last(), Line(ind, line, file)) && line != 0
      modifies this
      ensures Valid() && items == old(items) + [Line(ind, line, file)] && curFile == file && lastLineNum == line
    {
      SelectFile(file);
      DebugLine(ind, line);
    }

    /** The special opcode when one byte will do, and else the pc first, then the line. */
    method WriteAdvance(section: seq<byte>, lenPc: nat, lenLine: int) returns (data: seq<byte>)
      requires lenPc < 0x800_0000 && -0x8000_0000 <= lenLine < 0x8000_0000
      ensures data == section + AdvanceBytes(lenPc, lenLine)
    {
      hide EncodeU, EncodeS, PcBytes, LineBytes;
      var n := lenPc * LINE_RANGE + lenLine + OPCODE_BASE - LINE_BASE;
      if lenPc != 0 && LINE_BASE <= lenLine <= OPCODE_BASE + LINE_BASE && OPCODE_BASE <= n <= 255 {
        data := section + [n];
      } else {
        data := WritePc(section, lenPc);
        data := WriteLine(data, lenLine);
      }
    }

    method WritePc(section: seq<byte>, lenPc: nat) returns (data: seq<byte>)
      requires lenPc < 0x800_0000
      ensures data == section + PcBytes(lenPc)
    {
      hide EncodeU;
      data := section;
      if lenPc != 0 {
        var n := lenPc * LINE_RANGE + 0 + OPCODE_BASE - LINE_BASE;
        if OPCODE_BASE <= n <= 255 {
          data := data + [n];
        } else {
          data := WriteU(data + [ADVANCE_PC], lenPc);
        }
      }
    }

    method WriteLine(section: seq<byte>, lenLine: int) returns (data: seq<byte>)
      requires -0x8000_0000 <= lenLine < 0x8000_0000
      ensures data == section + LineBytes(lenLine)
    {
      hide EncodeS;
      data := section;
      if lenLine != 0 {
        var n := 0 * LINE_RANGE + lenLine + OPCODE_BASE - LINE_BASE;
        if LINE_BASE <= lenLine <= OPCODE_BASE + LINE_BASE && OPCODE_BASE <= n <= 255 {
          data := data + [n];
        } else {
          data := WriteS(data + [ADVANCE_LINE], lenLine);
          data := data + [OPCODE_BASE - LINE_BASE];
        }
      }
    }

    /** tcc_debug_funcstart with backtraces on, after its call of tcc_debug_line. */
    method DebugFunction(name: seq<byte>)
      requires Valid() && ItemOk(Last(), Function(name))
      modifies this`lineData, this`items
      ensures Valid() && items == old(items) + [Function(name)]
    {
      hide Prologue, Chunks, ItemsOk, After, EncodeU;
      ChunksSnoc(START, items, Function(name));
      var data := WriteU([0], |name| + 2);
      data := data + [FUNCTION_NAME];
      var len := |name| + 1;
      ghost var head := data;
      var i := 0;
      while i < len
        invariant 0 <= i <= len && data == head + (name + [0])[..i]
      {
        data := data + [if i < |name| then name[i] else 0];
        i := i + 1;
      }
      assert data == Chunk(Last(), Function(name));
      assert lineData + data == Prologue(0) + (Chunks(START, items) + Chunk(After(START, items), Function(name)));
      lineData := lineData + data;
      items := items + [Function(name)];
    }

    /** tcc_debug_prolog_epilog. */
    method DebugMark(epilogue: bool)
      requires Valid()
      modifies this`lineData, this`items
      ensures Valid() && items == old(items) + [Mark(if epilogue then 11 else 10)]
    {
      hide Prologue, Chunks, ItemsOk, After;
      var op: byte := if epilogue then 11 else 10;
      ChunksSnoc(START, items, Mark(op));
      assert lineData + [op] == Prologue(0) + (Chunks(START, items) + Chunk(After(START, items), Mark(op)));
      lineData := lineData + [op];
      items := items + [Mark(op)];
    }

    /** tcc_debug_end, then the relocation of the address operand: the section starts at `base`. */
    method Finish(base: u32) returns (program: seq<byte>)
      requires Valid()
      ensures program == Program(base, items)
    {
      hide Chunks, ItemsOk, After;
      var data := WriteU(lineData + [0], 1);
      data := data + [1];
      assert EncodeU(5) == [5];
      program := data[..3] + Le32(base) + data[7..];
      ghost var body := Chunks(START, items);
      assert data == Prologue(0) + body + Epilogue();
      assert data[7..] == body + Epilogue();
      assert data[..3] == [0] + EncodeU(5) + [2];
    }
  }

  lemma LineChunk(p: Place, ind: nat, line: nat, file: nat)
    requires ItemOk(p, Line(ind, line, file))
    ensures Chunk(p, Line(ind, line, file)) == FileBytes(p, file) + AdvanceBytes(ind - p.pc, line - p.line)
  {
    hide FileBytes, AdvanceBytes;
  }
}
