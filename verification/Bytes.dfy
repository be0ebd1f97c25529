/** Machine words as integers: bytes, little-endian 32-bit words and C strings. */
module Bytes {

  type byte = x: int | 0 <= x < 256
  type u32 = x: int | 0 <= x < 0x1_0000_0000

  type u64 = x: int | 0 <= x < 0x1_0000_0000_0000_0000
  type i64 = x: int | -0x8000_0000_0000_0000 <= x < 0x8000_0000_0000_0000

  const TWO32: int := 0x1_0000_0000
  const TWO63: int := 0x8000_0000_0000_0000
  const TWO64: int := 0x1_0000_0000_0000_0000

  /** The value of an `int` as the two's complement reading of the 32-bit word `x % 2^32`. */
  function ToInt32(x: int): int {
    var w := x % TWO32;
    if w < 0x8000_0000 then w else w - TWO32
  }

  /** The same for a `long long`. */
  function ToInt64(x: int): i64 {
    var w := x % TWO64;
    if w < TWO63 then w else w - TWO64
  }

  /** Little-endian layout of a 32-bit word. */
  function Le32(x: u32): (s: seq<byte>)
    ensures |s| == 4
  {
    [x % 256, x / 256 % 256, x / 256 / 256 % 256, x / 256 / 256 / 256 % 256]
  }

  function ReadLe32(s: seq<byte>, at: nat): u32
    requires at + 4 <= |s|
  {
    var b0: int, b1: int, b2: int, b3: int := s[at], s[at + 1], s[at + 2], s[at + 3];
    assert b0 < 256 && b1 < 256 && b2 < 256 && b3 < 256;
    b0 + 256 * (b1 + 256 * (b2 + 256 * b3))
  }

  /** A word stored in little-endian order is read back unchanged, wherever it is placed. */
  lemma ReadLe32OfLe32(s: seq<byte>, at: nat, x: u32)
    requires at + 4 <= |s| && s[at..at + 4] == Le32(x)
    ensures ReadLe32(s, at) == x
  {
    var w := s[at..at + 4];
    assert s[at] == w[0] && s[at + 1] == w[1] && s[at + 2] == w[2] && s[at + 3] == w[3];
    Le32Digits(x);
  }

  lemma Le32Digits(x: u32)
    ensures var y := x / 256; var z := y / 256;
            z / 256 < 256 && x == x % 256 + 256 * (y % 256 + 256 * (z % 256 + 256 * (z / 256 % 256)))
  {
  }

  /** A string with no NUL inside: what a `const char *` can denote. */
  predicate IsCString(s: seq<byte>) {
    forall i :: 0 <= i < |s| ==> s[i] != 0
  }

  /** The C string stored at the start of a character array. */
  function CString(field: seq<byte>): (s: seq<byte>)
    ensures |s| <= |field| && IsCString(s) && s == field[..|s|]
    ensures |s| < |field| ==> field[|s|] == 0
  {
    if field == [] || field[0] == 0 then [] else [field[0]] + CString(field[1..])
  }

  /** The array contents determine one C string. */
  lemma {:induction false} CStringUnique(field: seq<byte>, s: seq<byte>)
    requires IsCString(s) && |s| < |field| && s == field[..|s|] && field[|s|] == 0
    ensures CString(field) == s
  {
    if s != [] {
      CStringUnique(field[1..], s[1..]);
    }
  }

  /** The bytes of `s` and a NUL stand at `at`. */
  predicate Holds(data: seq<byte>, at: int, s: seq<byte>) {
    0 <= at && at + |s| + 1 <= |data| && data[at..at + |s| + 1] == s + [0]
  }

  /** Then a reader finds the string there. */
  lemma HoldsReads(data: seq<byte>, at: nat, s: seq<byte>)
    requires Holds(data, at, s) && IsCString(s)
    ensures at <= |data| && CString(data[at..]) == s
  {
    assert data[at..][..|s|] == data[at..at + |s| + 1][..|s|];
    assert data[at..][|s|] == data[at..at + |s| + 1][|s|];
    CStringUnique(data[at..], s);
  }

  /** The lowest byte comes first. */
  lemma LowestByteFirst(s: seq<byte>, at: nat)
    requires at + 4 <= |s|
    ensures var b0: int, b1: int, b2: int, b3: int := s[at], s[at + 1], s[at + 2], s[at + 3];
            ReadLe32(s, at) == b0 + 0x100 * b1 + 0x1_0000 * b2 + 0x100_0000 * b3
  {
  }
}
