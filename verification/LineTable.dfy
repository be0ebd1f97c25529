/** What looking an address up in an emitted line program returns, for every sequence of events. */
module LineTable {
  import opened Bytes
  import opened Leb128
  import opened LineProgram
  import opened Options

  /** The section holds these bytes here. */
  predicate At(s: seq<byte>, at: nat, bytes: seq<byte>) {
    at + |bytes| <= |s| && s[at..at + |bytes|] == bytes
  }

  lemma AtSplit(s: seq<byte>, at: nat, a: seq<byte>, b: seq<byte>)
    requires At(s, at, a + b)
    ensures At(s, at, a) && At(s, at + |a|, b)
  {
    assert s[at..at + |a|] == (a + b)[..|a|];
    assert s[at + |a|..at + |a + b|] == (a + b)[|a|..];
  }

  lemma AtFirst(s: seq<byte>, at: nat, op: byte, rest: seq<byte>)
    requires At(s, at, [op] + rest)
    ensures at < |s| && s[at] == op && At(s, at + 1, rest)
  {
    AtSplit(s, at, [op], rest);
    assert s[at..at + 1][0] == op;
  }

  lemma ReadUAt(s: seq<byte>, at: nat, v: u64)
    requires At(s, at, EncodeU(v))
    ensures ReadU(s, at) == (v, at + |EncodeU(v)|)
  {
    hide EncodeU, ReadU;
    var end := at + |EncodeU(v)|;
    assert s == s[..at] + EncodeU(v) + s[end..];
    UnsignedRoundTrip(s[..at], v, s[end..]);
  }

  lemma ReadSAt(s: seq<byte>, at: nat, v: i64)
    requires At(s, at, EncodeS(v))
    ensures ReadS(s, at) == (v, at + |EncodeS(v)|)
  {
    hide EncodeS, ReadS;
    var end := at + |EncodeS(v)|;
    assert s == s[..at] + EncodeS(v) + s[end..];
    SignedRoundTrip(s[..at], v, s[end..]);
  }

  // ---------------------------------------------------------------- single opcodes

  /** The line number stays an int. */
  predicate LineFits(line: int) {
    0 <= line < 0x8000_0000
  }

  lemma PlainStep(u: Unit, s: seq<byte>, at: nat, r: Registers, wanted: u32, regs: Registers, next: nat)
    requires at < |s| && Decode(u, s, at, r) == Plain(regs, next)
    ensures Lookup(u, s, at, r, wanted) == Lookup(u, s, next, regs, wanted)
  {
    hide Decode;
  }

  lemma AdvanceStep(u: Unit, s: seq<byte>, at: nat, r: Registers, wanted: u32, pc: u32, delta: int, next: nat)
    requires at < |s| && Decode(u, s, at, r) == Advance(pc, delta, next)
    ensures Lookup(u, s, at, r, wanted)
         == if r.pc <= wanted <= pc then Found(r)
            else Lookup(u, s, next, r.(pc := pc, line := ToInt32(r.line + delta)), wanted)
  {
    hide Decode, ToInt32;
  }

  lemma SpecialReads(u: Unit, s: seq<byte>, at: nat, r: Registers, wanted: u32, dpc: nat, dline: int)
    requires IsSpecial(dpc, dline) && At(s, at, [SpecialNumber(dpc, dline)])
    requires r.pc + dpc < TWO32 && LineFits(r.line + dline)
    ensures Lookup(u, s, at, r, wanted)
         == if r.pc <= wanted <= r.pc + dpc then Found(r)
            else Lookup(u, s, at + 1, r.(pc := r.pc + dpc, line := r.line + dline), wanted)
  {
    hide Lookup, Decode, IsSpecial, SpecialNumber, ToInt32;
    SpecialSplits(dpc, dline);
    assert At(s, at, [SpecialNumber(dpc, dline)] + []) by { assert [SpecialNumber(dpc, dline)] + [] == [SpecialNumber(dpc, dline)]; }
    AtFirst(s, at, SpecialNumber(dpc, dline), []);
    DecodeSpecial(u, s, at, r);
    InRange(r, dpc, dline);
    AdvanceStep(u, s, at, r, wanted, r.pc + dpc, dline, at + 1);
  }

  lemma DecodeSpecial(u: Unit, s: seq<byte>, at: nat, r: Registers)
    requires at < |s| && s[at] >= OPCODE_BASE
    ensures var op := s[at] - OPCODE_BASE;
            Decode(u, s, at, r) == Advance((r.pc + op / LINE_RANGE) % TWO32, op % LINE_RANGE + LINE_BASE, at + 1)
  {
  }

  lemma InRange(r: Registers, dpc: nat, dline: int)
    requires r.pc + dpc < TWO32 && LineFits(r.line + dline)
    ensures (r.pc + dpc) % TWO32 == r.pc + dpc && ToInt32(r.line + dline) == r.line + dline
  {
  }

  lemma SpecialSplits(dpc: nat, dline: int)
    requires IsSpecial(dpc, dline)
    ensures OPCODE_BASE <= SpecialNumber(dpc, dline) <= 255
    ensures (SpecialNumber(dpc, dline) - OPCODE_BASE) / LINE_RANGE == dpc
    ensures (SpecialNumber(dpc, dline) - OPCODE_BASE) % LINE_RANGE + LINE_BASE == dline
  {
  }

  lemma PcReads(u: Unit, s: seq<byte>, at: nat, r: Registers, wanted: u32, dpc: nat)
    requires At(s, at, PcBytes(dpc)) && r.pc + dpc < TWO32 && LineFits(r.line)
    ensures Lookup(u, s, at, r, wanted)
         == if dpc != 0 && r.pc <= wanted <= r.pc + dpc then Found(r)
            else Lookup(u, s, at + |PcBytes(dpc)|, r.(pc := r.pc + dpc), wanted)
  {
    hide EncodeU, ReadU, ReadS, Lookup, At, IsSpecial, Decode, SpecialNumber;
    if dpc == 0 {
      assert r.(pc := r.pc + dpc) == r;
    } else if IsSpecial(dpc, 0) {
      assert PcBytes(dpc) == [SpecialNumber(dpc, 0)];
      SpecialReads(u, s, at, r, wanted, dpc, 0);
    } else {
      AtFirst(s, at, ADVANCE_PC, EncodeU(dpc));
      ReadUAt(s, at + 1, dpc);
      DecodePc(u, s, at, r, dpc);
      AdvanceStep(u, s, at, r, wanted, r.pc + dpc, 0, at + 1 + |EncodeU(dpc)|);
    }
  }

  lemma DecodePc(u: Unit, s: seq<byte>, at: nat, r: Registers, dpc: nat)
    requires at < |s| && s[at] == ADVANCE_PC && ReadU(s, at + 1).0 == dpc && r.pc + dpc < TWO32
    ensures Decode(u, s, at, r) == Advance(r.pc + dpc, 0, ReadU(s, at + 1).1)
  {
    hide ReadU, ReadS;
  }

  lemma DecodeLine(u: Unit, s: seq<byte>, at: nat, r: Registers, dline: int)
    requires at < |s| && s[at] == ADVANCE_LINE && ReadS(s, at + 1).0 == dline && LineFits(r.line + dline)
    ensures Decode(u, s, at, r) == Plain(r.(line := r.line + dline), ReadS(s, at + 1).1)
  {
    hide ReadU, ReadS;
  }

  /** A small step is looked up before the line moves, a large one after. */
  lemma LineReads(u: Unit, s: seq<byte>, at: nat, r: Registers, wanted: u32, dline: int)
    requires At(s, at, LineBytes(dline)) && LineFits(r.line) && LineFits(r.line + dline)
    ensures Lookup(u, s, at, r, wanted)
         == if dline != 0 && wanted == r.pc then Found(if IsSpecial(0, dline) then r else r.(line := r.line + dline))
            else Lookup(u, s, at + |LineBytes(dline)|, r.(line := r.line + dline), wanted)
  {
    hide EncodeS, ReadU, ReadS, Lookup, At, IsSpecial, Decode, SpecialNumber;
    if dline == 0 {
      assert r.(line := r.line + dline) == r;
    } else if IsSpecial(0, dline) {
      assert LineBytes(dline) == [SpecialNumber(0, dline)];
      SpecialReads(u, s, at, r, wanted, 0, dline);
    } else {
      LargeLineReads(u, s, at, r, wanted, dline);
    }
  }

  lemma LargeLineReads(u: Unit, s: seq<byte>, at: nat, r: Registers, wanted: u32, dline: int)
    requires At(s, at, [ADVANCE_LINE] + EncodeS(dline) + [18])
    requires LineFits(r.line) && LineFits(r.line + dline)
    ensures Lookup(u, s, at, r, wanted)
         == if wanted == r.pc then Found(r.(line := r.line + dline))
            else Lookup(u, s, at + |[ADVANCE_LINE] + EncodeS(dline) + [18]|, r.(line := r.line + dline), wanted)
  {
    hide EncodeS, ReadU, ReadS, Lookup, At, Decode;
    var codes := EncodeS(dline);
    assert [ADVANCE_LINE] + codes + [18] == [ADVANCE_LINE] + (codes + [18]);
    AtFirst(s, at, ADVANCE_LINE, codes + [18]);
    AtSplit(s, at + 1, codes, [18]);
    ReadSAt(s, at + 1, dline);
    DecodeLine(u, s, at, r, dline);
    var moved := r.(line := r.line + dline);
    PlainStep(u, s, at, r, wanted, moved, at + 1 + |codes|);
    SpecialReads(u, s, at + 1 + |codes|, moved, wanted, 0, 0);
  }

  lemma FileReads(u: Unit, s: seq<byte>, at: nat, r: Registers, wanted: u32, p: Place, file: nat)
    requires At(s, at, FileBytes(p, file)) && file < TWO32 && SetFile(u, r, p.file) == r
    ensures Lookup(u, s, at, r, wanted) == Lookup(u, s, at + |FileBytes(p, file)|, SetFile(u, r, file), wanted)
  {
    hide EncodeU, ReadU, ReadS, SetFile, Lookup, Decode, At;
    if file != p.file {
      AtFirst(s, at, SET_FILE, EncodeU(file));
      ReadUAt(s, at + 1, file);
      DecodeFile(u, s, at, r, file);
      PlainStep(u, s, at, r, wanted, SetFile(u, r, file), at + 1 + |EncodeU(file)|);
    }
  }

  lemma DecodeFile(u: Unit, s: seq<byte>, at: nat, r: Registers, file: nat)
    requires at < |s| && s[at] == SET_FILE && ReadU(s, at + 1).0 == file && file < TWO32
    ensures Decode(u, s, at, r) == Plain(SetFile(u, r, file), ReadU(s, at + 1).1)
  {
    hide ReadU, ReadS, SetFile;
  }

  lemma MarkReads(u: Unit, s: seq<byte>, at: nat, r: Registers, wanted: u32, op: byte)
    requires At(s, at, [op]) && (op == 10 || op == 11)
    ensures Lookup(u, s, at, r, wanted) == Lookup(u, s, at + 1, r, wanted)
  {
    AtFirst(s, at, op, []);
    assert Decode(u, s, at, r) == Plain(r, at + 1);
    PlainStep(u, s, at, r, wanted, r, at + 1);
  }

  lemma FunctionReads(u: Unit, s: seq<byte>, at: nat, r: Registers, wanted: u32, name: seq<byte>)
    requires IsCString(name) && |name| < 0x7FFF_FFFE
    requires At(s, at, [0] + EncodeU(|name| + 2) + [FUNCTION_NAME] + name + [0])
    ensures Lookup(u, s, at, r, wanted)
         == Lookup(u, s, at + |[0] + EncodeU(|name| + 2) + [FUNCTION_NAME] + name + [0]|,
                   r.(func := Some((name, r.pc))), wanted)
  {
    hide EncodeU, ReadU, ReadS, Lookup, At, Decode, CString, IsCString;
    var len := EncodeU(|name| + 2);
    assert [0] + len + [FUNCTION_NAME] + name + [0] == [0] + (len + ([FUNCTION_NAME] + (name + [0])));
    AtFirst(s, at, 0, len + ([FUNCTION_NAME] + (name + [0])));
    AtSplit(s, at + 1, len, [FUNCTION_NAME] + (name + [0]));
    ReadUAt(s, at + 1, |name| + 2);
    var cp := at + 1 + |len|;
    AtFirst(s, cp, FUNCTION_NAME, name + [0]);
    NameReads(s, cp + 1, name);
    DecodeFunction(u, s, at, r, name, cp);
    PlainStep(u, s, at, r, wanted, r.(func := Some((name, r.pc))), cp + |name| + 2);
  }

  lemma DecodeFunction(u: Unit, s: seq<byte>, at: nat, r: Registers, name: seq<byte>, cp: nat)
    requires at < |s| && s[at] == 0 && ReadU(s, at + 1) == (|name| + 2, cp) && |name| + 2 < TWO32
    requires cp < |s| && s[cp] == FUNCTION_NAME && CString(s[cp + 1..]) == name
    ensures Decode(u, s, at, r) == Plain(r.(func := Some((name, r.pc))), cp + |name| + 2)
  {
    hide ReadU, ReadS, CString, ReadLe32;
  }

  lemma NameReads(s: seq<byte>, at: nat, name: seq<byte>)
    requires IsCString(name) && At(s, at, name + [0])
    ensures CString(s[at..]) == name
  {
    AtSplit(s, at, name, [0]);
    assert s[at..][..|name|] == s[at..at + |name|];
    assert s[at..][|name|] == s[at + |name|..at + |name| + 1][0];
    CStringUnique(s[at..], name);
  }

  lemma PrologueReads(u: Unit, s: seq<byte>, r: Registers, wanted: u32, base: u32)
    requires At(s, 0, Prologue(base))
    ensures Lookup(u, s, 0, r, wanted) == Lookup(u, s, |Prologue(base)|, r.(pc := base), wanted)
  {
    hide ReadU, ReadS;
    assert EncodeU(5) == [5];
    assert Prologue(base) == [0] + ([5] + ([2] + Le32(base)));
    AtFirst(s, 0, 0, [5] + ([2] + Le32(base)));
    AtSplit(s, 1, [5], [2] + Le32(base));
    ReadUAt(s, 1, 5);
    AtFirst(s, 2, 2, Le32(base));
    ReadLe32OfLe32(s, 3, base);
    assert Decode(u, s, 0, r) == Plain(r.(pc := base), 7);
  }

  lemma EpilogueReads(u: Unit, s: seq<byte>, at: nat, r: Registers, wanted: u32)
    requires At(s, at, Epilogue()) && |s| == at + |Epilogue()|
    ensures Lookup(u, s, at, r, wanted) == Missed(r)
  {
    hide ReadU, ReadS;
    assert EncodeU(1) == [1];
    assert Epilogue() == [0] + ([1] + [1]);
    AtFirst(s, at, 0, [1] + [1]);
    AtSplit(s, at + 1, [1], [1]);
    ReadUAt(s, at + 1, 1);
    AtFirst(s, at + 2, 1, []);
    assert Decode(u, s, at, r) == Plain(r, at + 3);
  }

  // ---------------------------------------------------------------- the table behind the bytes

  /** Looking `wanted` up in the events themselves. `r.pc` and `r.line` are those of the event before. */
  function TableSearch(u: Unit, base: nat, r: Registers, items: seq<Item>, wanted: u32): Outcome
    requires items != [] ==> r.pc >= base
    requires forall i :: 0 <= i < |items| && items[i].Line? ==> base + items[i].ind < TWO32
    decreases items
  {
    if items == [] then Missed(r) else
    match items[0]
    case Line(ind, line, file) =>
      var filed := SetFile(u, r, file);
      var moved := filed.(pc := base + ind, line := line);
      if r.pc < base + ind && r.pc <= wanted <= base + ind then Found(filed)
      else if r.pc == base + ind == wanted && line != r.line then
        Found(if IsSpecial(0, line - r.line) then filed else moved)
      else TableSearch(u, base, moved, items[1..], wanted)
    case Function(name) => TableSearch(u, base, r.(func := Some((name, r.pc))), items[1..], wanted)
    case Mark(_) => TableSearch(u, base, r, items[1..], wanted)
  }

  /** The registers the reader has when the writer is at `p`. */
  predicate Agrees(u: Unit, base: nat, p: Place, r: Registers) {
    r.pc == base + p.pc && r.line == p.line && SetFile(u, r, p.file) == r
  }

  lemma AdvanceReads(u: Unit, s: seq<byte>, at: nat, r: Registers, wanted: u32, dpc: nat, dline: int)
    requires At(s, at, AdvanceBytes(dpc, dline)) && r.pc + dpc < TWO32 && LineFits(r.line) && LineFits(r.line + dline)
    ensures Lookup(u, s, at, r, wanted)
         == if dpc != 0 && r.pc <= wanted <= r.pc + dpc then Found(r)
            else if dpc == 0 && dline != 0 && wanted == r.pc then
              Found(if IsSpecial(0, dline) then r else r.(line := r.line + dline))
            else Lookup(u, s, at + |AdvanceBytes(dpc, dline)|, r.(pc := r.pc + dpc, line := r.line + dline), wanted)
  {
    hide PcBytes, LineBytes, Lookup, LineFits;
    if dpc != 0 && IsSpecial(dpc, dline) {
      SpecialReads(u, s, at, r, wanted, dpc, dline);
    } else {
      AtSplit(s, at, PcBytes(dpc), LineBytes(dline));
      PcReads(u, s, at, r, wanted, dpc);
      LineReads(u, s, at + |PcBytes(dpc)|, r.(pc := r.pc + dpc), wanted, dline);
    }
  }

  lemma SetFileKeeps(u: Unit, r: Registers, file: nat)
    ensures var f := SetFile(u, r, file);
            f.pc == r.pc && f.line == r.line && f.func == r.func && SetFile(u, f, file) == f
  {
  }

  lemma {:induction false} ChunksRead(u: Unit, s: seq<byte>, at: nat, base: nat, p: Place, r: Registers, items: seq<Item>,
                                      wanted: u32)
    requires ItemsOk(p, items) && LineFits(p.line) && Agrees(u, base, p, r)
    requires InSpace(base, items)
    requires At(s, at, Chunks(p, items) + Epilogue()) && |s| == at + |Chunks(p, items) + Epilogue()|
    ensures Lookup(u, s, at, r, wanted) == TableSearch(u, base, r, items, wanted)
    decreases items
  {
    hide Lookup, Chunk, Epilogue, At, SetFile, IsSpecial;
    if items == [] {
      assert Chunks(p, items) + Epilogue() == Epilogue();
      EpilogueReads(u, s, at, r, wanted);
    } else {
      var item, rest := items[0], Chunks(Moved(p, items[0]), items[1..]) + Epilogue();
      assert Chunks(p, items) + Epilogue() == Chunk(p, item) + rest;
      AtSplit(s, at, Chunk(p, item), rest);
      ItemReads(u, s, at, base, p, r, item, wanted);
      var next := Stepped(u, base, r, item);
      ChunksRead(u, s, at + |Chunk(p, item)|, base, Moved(p, item), next, items[1..], wanted);
    }
  }

  /** The address space ends at 2^32. */
  predicate InSpace(base: nat, items: seq<Item>) {
    forall i :: 0 <= i < |items| && items[i].Line? ==> base + items[i].ind < TWO32
  }

  /** The registers after an item that is not the answer. */
  function Stepped(u: Unit, base: nat, r: Registers, item: Item): Registers
    requires item.Line? ==> base + item.ind < TWO32
  {
    match item
    case Line(ind, line, file) => SetFile(u, r, file).(pc := base + ind, line := line)
    case Function(name) => r.(func := Some((name, r.pc)))
    case Mark(_) => r
  }

  /** Whether the search ends at this item, and with which registers. */
  function Hit(u: Unit, base: nat, r: Registers, item: Item, wanted: u32): Option<Registers>
    requires item.Line? ==> base + item.ind < TWO32
  {
    if !item.Line? then None
    else if r.pc < base + item.ind && r.pc <= wanted <= base + item.ind then Some(SetFile(u, r, item.file))
    else if r.pc == base + item.ind == wanted && item.line != r.line then
      Some(if IsSpecial(0, item.line - r.line) then SetFile(u, r, item.file) else Stepped(u, base, r, item))
    else None
  }

  lemma SteppedAgrees(u: Unit, base: nat, p: Place, r: Registers, item: Item)
    requires Agrees(u, base, p, r) && (item.Line? ==> base + item.ind < TWO32)
    ensures Agrees(u, base, Moved(p, item), Stepped(u, base, r, item))
  {
  }

  lemma ItemReads(u: Unit, s: seq<byte>, at: nat, base: nat, p: Place, r: Registers, item: Item, wanted: u32)
    requires ItemOk(p, item) && LineFits(p.line) && Agrees(u, base, p, r) && (item.Line? ==> base + item.ind < TWO32)
    requires At(s, at, Chunk(p, item))
    ensures Agrees(u, base, Moved(p, item), Stepped(u, base, r, item)) && LineFits(Moved(p, item).line)
    ensures Lookup(u, s, at, r, wanted)
         == if Hit(u, base, r, item, wanted).Some? then Found(Hit(u, base, r, item, wanted).value)
            else Lookup(u, s, at + |Chunk(p, item)|, Stepped(u, base, r, item), wanted)
  {
    hide Lookup, AdvanceBytes, FileBytes, EncodeU, At, IsSpecial;
    match item
    case Line(ind, line, file) =>
      var head, tail := FileBytes(p, file), AdvanceBytes(ind - p.pc, line - p.line);
      AtSplit(s, at, head, tail);
      FileReads(u, s, at, r, wanted, p, file);
      var filed := SetFile(u, r, file);
      SetFileKeeps(u, r, file);
      AdvanceReads(u, s, at + |head|, filed, wanted, ind - p.pc, line - p.line);
    case Function(name) =>
      FunctionReads(u, s, at, r, wanted, name);
    case Mark(op) =>
      MarkReads(u, s, at, r, wanted, op);
  }

  // ---------------------------------------------------------------- main results

  /** Searching the emitted program is searching the table of events. */
  lemma LookupIsTableSearch(u: Unit, base: u32, items: seq<Item>, wanted: u32)
    requires ItemsOk(START, items) && InSpace(base, items)
    ensures Lookup(u, Program(base, items), 0, Started(u), wanted)
         == TableSearch(u, base, Started(u).(pc := base), items, wanted)
  {
    hide Lookup, Chunks, ItemsOk;
    var s, head, tail := Program(base, items), Prologue(base), Chunks(START, items) + Epilogue();
    assert s == head + tail;
    assert At(s, 0, head + tail);
    AtSplit(s, 0, head, tail);
    PrologueReads(u, s, Started(u), wanted, base);
    ChunksRead(u, s, |head|, base, START, Started(u).(pc := base), items, wanted);
  }

  /** The registers after all the items. */
  function SteppedAll(u: Unit, base: nat, r: Registers, items: seq<Item>): Registers
    requires InSpace(base, items)
    decreases items
  {
    if items == [] then r else SteppedAll(u, base, Stepped(u, base, r, items[0]), items[1..])
  }

  /** The function in force after the items: the last one named, with the address where its name came. */
  function InForce(base: nat, items: seq<Item>): Option<(seq<byte>, int)>
    decreases items
  {
    if items == [] then None else
    var before, last := items[..|items| - 1], items[|items| - 1];
    if last.Function? then Some((last.name, base + After(START, before).pc)) else InForce(base, before)
  }

  lemma {:induction false} AfterSnoc(p: Place, items: seq<Item>, item: Item)
    ensures After(p, items + [item]) == Moved(After(p, items), item)
    decreases items
  {
    if items == [] {
      assert items + [item] == [item];
    } else {
      assert (items + [item])[1..] == items[1..] + [item];
      AfterSnoc(Moved(p, items[0]), items[1..], item);
    }
  }

  lemma {:induction false} SteppedSnoc(u: Unit, base: nat, r: Registers, items: seq<Item>, item: Item)
    requires InSpace(base, items + [item])
    ensures InSpace(base, items) && (item.Line? ==> base + item.ind < TWO32)
    ensures SteppedAll(u, base, r, items + [item]) == Stepped(u, base, SteppedAll(u, base, r, items), item)
    decreases items
  {
    hide Stepped;
    assert (items + [item])[|items|] == item;
    forall i | 0 <= i < |items| && items[i].Line? ensures base + items[i].ind < TWO32 {
      assert (items + [item])[i] == items[i];
    }
    if items == [] {
      assert items + [item] == [item];
    } else {
      assert (items + [item])[1..] == items[1..] + [item] && (items + [item])[0] == items[0];
      SteppedSnoc(u, base, Stepped(u, base, r, items[0]), items[1..], item);
    }
  }

  /** The reader's registers are where the writer is, and its function is the one in force. */
  lemma {:induction false} SteppedIs(u: Unit, base: u32, items: seq<Item>)
    requires InSpace(base, items)
    ensures var r := SteppedAll(u, base, Started(u).(pc := base), items);
            Agrees(u, base, After(START, items), r) && r.func == InForce(base, items)
    decreases items
  {
    hide SetFile;
    if items == [] {
      StartAgrees(u, base);
    } else {
      var before, last := items[..|items| - 1], items[|items| - 1];
      assert items == before + [last];
      SteppedSnoc(u, base, Started(u).(pc := base), before, last);
      SteppedIs(u, base, before);
      AfterSnoc(START, before, last);
      var r := SteppedAll(u, base, Started(u).(pc := base), before);
      SteppedAgrees(u, base, After(START, before), r, last);
      SteppedFunc(u, base, r, last);
    }
  }

  lemma SteppedFunc(u: Unit, base: nat, r: Registers, item: Item)
    requires item.Line? ==> base + item.ind < TWO32
    ensures Stepped(u, base, r, item).func == if item.Function? then Some((item.name, r.pc)) else r.func
  {
  }

  /** The search goes past events that end below the wanted address. */
  lemma {:induction false} SearchSkips(u: Unit, base: nat, p: Place, r: Registers, before: seq<Item>, rest: seq<Item>,
                                       wanted: u32)
    requires ItemsOk(p, before + rest) && InSpace(base, before + rest) && Agrees(u, base, p, r)
    requires base + After(p, before).pc < wanted
    ensures InSpace(base, before) && InSpace(base, rest) && ItemsOk(After(p, before), rest)
    ensures p.pc <= After(p, before).pc
    ensures Agrees(u, base, After(p, before), SteppedAll(u, base, r, before))
    ensures TableSearch(u, base, r, before + rest, wanted)
         == TableSearch(u, base, SteppedAll(u, base, r, before), rest, wanted)
    decreases before
  {
    hide SetFile, IsSpecial;
    if before == [] {
      assert before + rest == rest;
    } else {
      var item := before[0];
      assert (before + rest)[1..] == before[1..] + rest;
      assert (before + rest)[0] == item;
      SteppedAgrees(u, base, p, r, item);
      SearchSkips(u, base, Moved(p, item), Stepped(u, base, r, item), before[1..], rest, wanted);
      assert forall i :: 0 <= i < |before| ==> (before + rest)[i] == before[i];
    }
  }

  /**
   * An address after one event's offset and up to the next one's gets the earlier event's line, and the file and
   * function in force there, except that the file is already the one of the later event.
   */
  lemma LookupFindsLine(u: Unit, base: u32, before: seq<Item>, next: Item, after: seq<Item>, wanted: u32)
    requires next.Line? && ItemsOk(START, before + ([next] + after)) && InSpace(base, before + ([next] + after))
    requires base + After(START, before).pc < wanted <= base + next.ind
    ensures InSpace(base, before)
    ensures Lookup(u, Program(base, before + ([next] + after)), 0, Started(u), wanted)
         == Found(SetFile(u, SteppedAll(u, base, Started(u).(pc := base), before), next.file))
    ensures var r := SteppedAll(u, base, Started(u).(pc := base), before);
            && SetFile(u, r, next.file).line == After(START, before).line
            && SetFile(u, r, next.file).func == InForce(base, before)
  {
    hide Lookup, SetFile, ItemsOk, After, Program;
    LookupIsTableSearch(u, base, before + ([next] + after), wanted);
    StartAgrees(u, base);
    SearchSkips(u, base, START, Started(u).(pc := base), before, [next] + after, wanted);
    SetFileKeeps(u, SteppedAll(u, base, Started(u).(pc := base), before), next.file);
    SteppedIs(u, base, before);
  }

  lemma StartAgrees(u: Unit, base: nat)
    requires base < TWO32
    ensures Agrees(u, base, START, Started(u).(pc := base))
  {
  }

  /** Where the file table reaches, an operand selects its own entry. */
  predicate InTable(u: Unit, file: nat) {
    (u.v5 || file > 0) && Entry(u, file) < FILE_TABLE_SIZE && Entry(u, file) < u.files
  }

  /** Tables before DWARF 5 count from one. */
  function Entry(u: Unit, file: nat): int {
    if u.v5 then file else file - 1
  }

  /** With both files in the table, the file a lookup reports is the one the code came from exactly when the next event is of the same file. */
  lemma FileIsRightIff(u: Unit, base: u32, before: seq<Item>, next: Item, after: seq<Item>, wanted: u32)
    requires next.Line? && ItemsOk(START, before + ([next] + after)) && InSpace(base, before + ([next] + after))
    requires base + After(START, before).pc < wanted <= base + next.ind
    requires InTable(u, After(START, before).file) && InTable(u, next.file)
    ensures var out := Lookup(u, Program(base, before + ([next] + after)), 0, Started(u), wanted);
            out.Found? && (out.regs.file == Some(Entry(u, After(START, before).file)) <==> next.file == After(START, before).file)
  {
    hide Lookup, ItemsOk, After, Program;
    LookupFindsLine(u, base, before, next, after, wanted);
  }

  /** Past the last event the loop runs to the end, with the registers of exactly that event: so every event is reached. */
  lemma ReachesEveryEvent(u: Unit, base: u32, items: seq<Item>, wanted: u32)
    requires ItemsOk(START, items) && InSpace(base, items) && base + After(START, items).pc < wanted
    ensures var out := Lookup(u, Program(base, items), 0, Started(u), wanted);
            var last := After(START, items);
            out.Missed? && out.regs.pc == base + last.pc && out.regs.line == last.line
            && (InTable(u, last.file) ==> out.regs.file == Some(Entry(u, last.file)))
  {
    hide Lookup, ItemsOk, After, Program;
    LookupIsTableSearch(u, base, items, wanted);
    StartAgrees(u, base);
    assert items + [] == items;
    SearchSkips(u, base, START, Started(u).(pc := base), items, [], wanted);
  }
}
