/** LEB128: the writers of tccdbg.c against the readers of tcc.h. */
module Leb128 {
  import opened Bytes

  /** DWARF_MAX_128: the readers stop after this many bytes. */
  const MAX_BYTES := 10

  /** 2^(7 i). */
  function P(i: nat): (p: int)
    ensures p > 0
  {
    if i == 0 then 1 else 128 * P(i - 1)
  }

  // ---------------------------------------------------------------- writers

  /** What dwarf_uleb128 emits. */
  function EncodeU(v: nat): (s: seq<byte>)
    ensures |s| > 0
  {
    if v < 128 then [v] else [v % 128 + 128] + EncodeU(v / 128)
  }

  /** What dwarf_sleb128 emits; on integers `v / 128` is the arithmetic shift by 7. */
  function EncodeS(v: int): (s: seq<byte>)
    ensures |s| > 0
    decreases if v < 0 then -v else v
  {
    if LastGroup(v) then [v % 128] else [v % 128 + 128] + EncodeS(v / 128)
  }

  /** The rest is all sign bits and bit 6 of this group agrees with them. */
  predicate LastGroup(v: int) {
    v / 128 == (if v < 0 then -1 else 0) && (v % 128 >= 64 <==> v < 0)
  }

  lemma LastGroupIff(v: int)
    ensures LastGroup(v) <==> -64 <= v < 64
  {
  }

  /** dwarf_uleb128 and dwarf_uleb128_op: the do-while loop, onto the end of a section. */
  method WriteU(section: seq<byte>, value: u64) returns (out: seq<byte>)
    ensures out == section + EncodeU(value)
  {
    out := section;
    var v: nat := value;
    while true
      invariant out + EncodeU(v) == section + EncodeU(value)
      decreases v
    {
      var low: byte := v % 128;
      var next := v / 128;
      if next == 0 {
        assert EncodeU(v) == [low];
        out := out + [low];
        return;
      }
      assert EncodeU(v) == [low + 128] + EncodeU(next);
      assert out + EncodeU(v) == out + [low + 128] + EncodeU(next);
      out := out + [low + 128];
      v := next;
    }
  }

  /** dwarf_sleb128 and dwarf_sleb128_op. */
  method WriteS(section: seq<byte>, value: i64) returns (out: seq<byte>)
    ensures out == section + EncodeS(value)
  {
    out := section;
    var v: int := value;
    var end := if value < 0 then -1 else 0;
    while true
      invariant out + EncodeS(v) == section + EncodeS(value) && (v < 0 <==> value < 0)
      decreases if v < 0 then -v else v
    {
      var low: byte := v % 128;
      var next := v / 128;
      var more := next != end || (low >= 64) != (end < 0);
      assert more <==> !LastGroup(v);
      if !more {
        out := out + [low];
        return;
      }
      assert EncodeS(v) == [low + 128] + EncodeS(next);
      assert out + EncodeS(v) == out + [low + 128] + EncodeS(next);
      out := out + [low + 128];
      v := next;
    }
  }

  /** dwarf_sleb128_size counts the bytes dwarf_sleb128 emits. */
  method SizeS(value: i64) returns (size: nat)
    ensures size == |EncodeS(value)|
  {
    size := 0;
    var v: int := value;
    var end := if value < 0 then -1 else 0;
    while true
      invariant size + |EncodeS(v)| == |EncodeS(value)| && (v < 0 <==> value < 0)
      decreases if v < 0 then -v else v
    {
      var low: byte := v % 128;
      var next := v / 128;
      size := size + 1;
      if !(next != end || (low >= 64) != (end < 0)) {
        return;
      }
      v := next;
    }
  }

  // ---------------------------------------------------------------- readers

  /** dwarf_read_1: zero at the end, without advancing. */
  function ByteAt(s: seq<byte>, at: nat): byte {
    if at < |s| then s[at] else 0
  }

  function NextAt(s: seq<byte>, at: nat): nat {
    if at < |s| then at + 1 else at
  }

  /** The number read from group `i` on, in units of 2^(7 i), and where reading stops. */
  function ReadUFrom(s: seq<byte>, at: nat, i: nat): (nat, nat)
    decreases MAX_BYTES - i
  {
    if i >= MAX_BYTES then (0, at)
    else if ByteAt(s, at) < 128 then (ByteAt(s, at), NextAt(s, at))
    else
      var (rest, next) := ReadUFrom(s, NextAt(s, at), i + 1);
      (ByteAt(s, at) % 128 + 128 * rest, next)
  }

  /** The signed reader extends the sign of the last group while there is room below bit 64. */
  function ReadSFrom(s: seq<byte>, at: nat, i: nat): (int, nat)
    decreases MAX_BYTES - i
  {
    if i >= MAX_BYTES then (0, at)
    else if ByteAt(s, at) < 128 then
      (if ByteAt(s, at) >= 64 && (i + 1) * 7 < 64 then ByteAt(s, at) - 128 else ByteAt(s, at), NextAt(s, at))
    else
      var (rest, next) := ReadSFrom(s, NextAt(s, at), i + 1);
      (ByteAt(s, at) % 128 + 128 * rest, next)
  }

  function ReadU(s: seq<byte>, at: nat): (u64, nat) {
    (ReadUFrom(s, at, 0).0 % TWO64, ReadUFrom(s, at, 0).1)
  }

  function ReadS(s: seq<byte>, at: nat): (i64, nat) {
    (ToInt64(ReadSFrom(s, at, 0).0), ReadSFrom(s, at, 0).1)
  }

  /** One group of the unsigned reader, scaled to its place. */
  lemma StepU(s: seq<byte>, at: nat, i: nat)
    requires i < MAX_BYTES
    ensures var b := ByteAt(s, at);
            var rest := if b < 128 then (0, NextAt(s, at)) else ReadUFrom(s, NextAt(s, at), i + 1);
            P(i) * ReadUFrom(s, at, i).0 == P(i) * (b % 128) + P(i + 1) * rest.0 && ReadUFrom(s, at, i).1 == rest.1
  {
    if ByteAt(s, at) >= 128 {
      Distribute(P(i), ByteAt(s, at) % 128, ReadUFrom(s, NextAt(s, at), i + 1).0);
    }
  }

  lemma Distribute(p: int, a: int, b: int)
    ensures p * (a + 128 * b) == p * a + 128 * p * b
  {
  }

  lemma AddMod(sum: int, x: int)
    ensures (sum % TWO64 + x) % TWO64 == (sum + x) % TWO64
  {
  }

  /** dwarf_read_uleb128. Or-ing a group shifted past all earlier ones is addition modulo 2^64. */
  method ReadUleb128(s: seq<byte>, at: nat) returns (value: u64, next: nat)
    ensures (value, next) == ReadU(s, at)
  {
    hide P, ReadUFrom, ByteAt, NextAt;
    next := at;
    ghost var sum := 0;
    value := 0;
    var i := 0;
    StopU(s, at);
    while i < MAX_BYTES
      invariant 0 <= i <= MAX_BYTES && value == sum % TWO64
      invariant sum + P(i) * ReadUFrom(s, next, i).0 == ReadUFrom(s, at, 0).0
      invariant ReadUFrom(s, next, i).1 == ReadUFrom(s, at, 0).1
    {
      var b := ByteAt(s, next);
      StepU(s, next, i);
      AddMod(sum, P(i) * (b % 128));
      value := (value + P(i) * (b % 128)) % TWO64;
      sum := sum + P(i) * (b % 128);
      next := NextAt(s, next);
      if b < 128 {
        return;
      }
      i := i + 1;
    }
    StopU(s, next);
  }

  lemma StopU(s: seq<byte>, at: nat)
    ensures P(0) == 1
    ensures ReadUFrom(s, at, MAX_BYTES) == (0, at)
  {
  }

  /** One group of the signed reader: a last group with bit 6 set takes 2^(7 i + 7) away again. */
  lemma StepS(s: seq<byte>, at: nat, i: nat)
    requires i < MAX_BYTES
    ensures var b := ByteAt(s, at);
            var rest := if b < 128 then (if b >= 64 && (i + 1) * 7 < 64 then -1 else 0, NextAt(s, at))
                        else ReadSFrom(s, NextAt(s, at), i + 1);
            P(i) * ReadSFrom(s, at, i).0 == P(i) * (b % 128) + P(i + 1) * rest.0 && ReadSFrom(s, at, i).1 == rest.1
  {
    var b := ByteAt(s, at);
    Distribute(P(i), b % 128, -1);
    if b >= 128 {
      Distribute(P(i), b % 128, ReadSFrom(s, NextAt(s, at), i + 1).0);
    }
  }

  /** dwarf_read_sleb128. */
  method ReadSleb128(s: seq<byte>, at: nat) returns (value: i64, next: nat)
    ensures (value, next) == ReadS(s, at)
  {
    hide P, ReadSFrom, ByteAt, NextAt, ToInt64;
    next := at;
    ghost var sum: int := 0;
    var word: u64 := 0;
    var i := 0;
    StopS(s, at);
    while i < MAX_BYTES
      invariant 0 <= i <= MAX_BYTES && word == sum % TWO64
      invariant sum + P(i) * ReadSFrom(s, next, i).0 == ReadSFrom(s, at, 0).0
      invariant ReadSFrom(s, next, i).1 == ReadSFrom(s, at, 0).1
    {
      var b := ByteAt(s, next);
      StepS(s, next, i);
      AddMod(sum, P(i) * (b % 128));
      word := (word + P(i) * (b % 128)) % TWO64;
      sum := sum + P(i) * (b % 128);
      next := NextAt(s, next);
      if b < 128 {
        if b >= 64 && (i + 1) * 7 < 64 {
          AddMod(sum, -P(i + 1));
          word := (word - P(i + 1)) % TWO64;
          sum := sum - P(i + 1);
        }
        value := SameWord(word, sum);
        return;
      }
      i := i + 1;
    }
    StopS(s, next);
    value := SameWord(word, sum);
  }

  /** The cast to a signed word looks at the number modulo 2^64 only. */
  function SameWord(word: u64, ghost sum: int): (value: i64)
    requires word == sum % TWO64
    ensures value == ToInt64(sum)
  {
    ToInt64(word)
  }

  lemma StopS(s: seq<byte>, at: nat)
    ensures P(0) == 1
    ensures ReadSFrom(s, at, MAX_BYTES) == (0, at)
  {
  }

  // ---------------------------------------------------------------- round trips

  lemma {:induction false} EncodeUReads(pre: seq<byte>, v: nat, post: seq<byte>, i: nat)
    requires i < MAX_BYTES && v < 2 * P(9 - i)
    ensures ReadUFrom(pre + EncodeU(v) + post, |pre|, i) == (v, |pre| + |EncodeU(v)|)
    ensures |EncodeU(v)| <= MAX_BYTES - i
    decreases v
  {
    var s := pre + EncodeU(v) + post;
    assert s[|pre|] == EncodeU(v)[0];
    if v >= 128 {
      assert s == (pre + [v % 128 + 128]) + EncodeU(v / 128) + post;
      assert i < 9;
      EncodeUReads(pre + [v % 128 + 128], v / 128, post, i + 1);
    }
  }

  lemma Powers()
    ensures 2 * P(9) == TWO64 && P(10) == 64 * TWO64
  {
    assert P(1) == 128 && P(2) == 0x4000 && P(3) == 0x20_0000 && P(4) == 0x1000_0000;
    assert P(5) == 0x8_0000_0000 && P(6) == 0x400_0000_0000 && P(7) == 0x2_0000_0000_0000;
    assert P(8) == 0x100_0000_0000_0000;
  }

  /** Section 7.6 of DWARF Version 5, unsigned: every value reads back, exactly its bytes are consumed, at most ten. */
  lemma UnsignedRoundTrip(pre: seq<byte>, v: u64, post: seq<byte>)
    ensures ReadU(pre + EncodeU(v) + post, |pre|) == (v, |pre| + |EncodeU(v)|)
    ensures |EncodeU(v)| <= MAX_BYTES
  {
    Powers();
    EncodeUReads(pre, v, post, 0);
  }

  /** Without the sign extension in the tenth group the reader is off by a multiple of 2^70, which it cannot see. */
  predicate SeesAs(x: int, v: int, i: nat)
    requires i <= MAX_BYTES
  {
    x == v || x == v + P(10 - i)
  }

  lemma {:induction false} EncodeSReads(pre: seq<byte>, v: int, post: seq<byte>, i: nat)
    requires i < MAX_BYTES && -P(9 - i) <= v < P(9 - i)
    ensures var r := ReadSFrom(pre + EncodeS(v) + post, |pre|, i);
            SeesAs(r.0, v, i) && r.1 == |pre| + |EncodeS(v)|
    ensures |EncodeS(v)| <= MAX_BYTES - i
    decreases if v < 0 then -v else v
  {
    hide P, SeesAs, ReadSFrom;
    var s := pre + EncodeS(v) + post;
    LastGroupIff(v);
    PowerStep(9 - i);
    assert s[|pre|] == EncodeS(v)[0];
    if LastGroup(v) {
      LastReads(s, |pre|, v, i);
    } else {
      assert s == (pre + [v % 128 + 128]) + EncodeS(v / 128) + post;
      assert i < 9;
      PowerStep(8 - i);
      EncodeSReads(pre + [v % 128 + 128], v / 128, post, i + 1);
      MoreReads(s, |pre|, v, i);
    }
  }

  lemma LastReads(s: seq<byte>, at: nat, v: int, i: nat)
    requires i < MAX_BYTES && at < |s| && -64 <= v < 64 && s[at] == v % 128
    ensures SeesAs(ReadSFrom(s, at, i).0, v, i) && ReadSFrom(s, at, i).1 == at + 1
  {
    PowerStep(0);
    assert v % 128 == if v < 0 then v + 128 else v;
  }

  lemma MoreReads(s: seq<byte>, at: nat, v: int, i: nat)
    requires i < 9 && at < |s| && s[at] == v % 128 + 128
    requires SeesAs(ReadSFrom(s, at + 1, i + 1).0, v / 128, i + 1)
    ensures SeesAs(ReadSFrom(s, at, i).0, v, i) && ReadSFrom(s, at, i).1 == ReadSFrom(s, at + 1, i + 1).1
  {
    hide P;
    PowerStep(9 - i);
    assert (v % 128 + 128) % 128 == v % 128;
    assert v % 128 + 128 * (v / 128) == v;
  }

  lemma PowerStep(i: nat)
    ensures P(i + 1) == 128 * P(i) && P(0) == 1
  {
  }

  lemma ToInt64Of(v: i64)
    ensures ToInt64(v) == v && ToInt64(v + 64 * TWO64) == v
  {
  }

  /** Section 7.6 of DWARF Version 5, signed, for every 64-bit value. */
  lemma SignedRoundTrip(pre: seq<byte>, v: i64, post: seq<byte>)
    ensures ReadS(pre + EncodeS(v) + post, |pre|) == (v, |pre| + |EncodeS(v)|)
    ensures |EncodeS(v)| <= MAX_BYTES
  {
    hide EncodeS, ReadSFrom, P, ToInt64;
    Powers();
    EncodeSReads(pre, v, post, 0);
    ToInt64Of(v);
  }
}
