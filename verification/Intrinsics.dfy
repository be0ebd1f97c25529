/** The 64-bit helpers on 32-bit words that src/home/tcc.c puts into every image. */
module Intrinsics {
  import opened Arithmetic
  import opened Bytes

  function Pow2(k: nat): (p: int)
    ensures p > 0
  {
    if k == 0 then 1 else 2 * Pow2(k - 1)
  }

  /** The value of a pair of words. */
  function Pair(hi: u32, lo: u32): u64 {
    hi * TWO32 + lo
  }

  function Hi(x: u64): u32 {
    x / TWO32
  }

  function Lo(x: u64): u32 {
    x % TWO32
  }

  /** `x << k` and `x >> k` on words, and bit `k`. */
  function Shl(x: u32, k: nat): u32 {
    (x * Pow2(k)) % TWO32
  }

  function Shr(x: u32, k: nat): u32
  {
    ShrInRange(x, Pow2(k));
    x / Pow2(k)
  }

  lemma ShrInRange(x: nat, p: int)
    requires p > 0
    ensures 0 <= x / p <= x
  {
    var q := x / p;
    assert x == p * q + x % p;
    if q <= -1 { MulLe(p, q, -1); }
    MulLe(q, 1, p);
  }

  function Bit(x: u32, k: nat): u32 {
    Shr(x, k) % 2
  }

  /** `x | 1 << k`. */
  function WithBit(x: u32, k: nat): nat {
    if Bit(x, k) == 1 then x else x + Pow2(k)
  }

  lemma {:induction false} PowSum(a: nat, b: nat)
    ensures Pow2(a + b) == Pow2(a) * Pow2(b)
  {
    if b > 0 {
      PowSum(a, b - 1);
      assert Pow2(a + b) == 2 * Pow2(a + b - 1);
    }
  }

  lemma Pow32()
    ensures Pow2(32) == TWO32 && Pow2(31) == 0x8000_0000 && Pow2(64) == TWO64
  {
    assert Pow2(8) == 256;
    PowSum(8, 8);
    PowSum(16, 16);
    PowSum(16, 15);
    assert Pow2(15) == 0x8000 by { assert Pow2(16) == 2 * Pow2(15); }
    PowSum(32, 32);
  }

  // ---------------------------------------------------------------- division

  /** The remainder doubled with a new low bit, when it has room. */
  lemma ShiftIn(rhi: u32, rlo: u32, bit: int)
    requires 0 <= bit <= 1 && 2 * Pair(rhi, rlo) + bit < TWO64
    ensures Shl(rlo, 1) + bit < TWO32 && Shl(rhi, 1) + Shr(rlo, 31) < TWO32
    ensures Pair(Shl(rhi, 1) + Shr(rlo, 31), Shl(rlo, 1) + bit) == 2 * Pair(rhi, rlo) + bit
  {
    hide Pow2, Shl, Shr;
    ShiftsByOne(rhi);
    ShiftsByOne(rlo);
    assert rhi < 0x8000_0000;
  }

  lemma ShiftsByOne(x: u32)
    ensures Shl(x, 1) == if x < 0x8000_0000 then 2 * x else 2 * x - TWO32
    ensures Shr(x, 31) == if x < 0x8000_0000 then 0 else 1
  {
    Pow32();
    assert Pow2(1) == 2;
  }

  lemma AtLeast(rhi: u32, rlo: u32, dhi: u32, dlo: u32)
    ensures (rhi > dhi || (rhi == dhi && rlo >= dlo)) <==> Pair(rhi, rlo) >= Pair(dhi, dlo)
  {
  }

  /** Subtraction with borrow. */
  lemma Subtract(rhi: u32, rlo: u32, dhi: u32, dlo: u32)
    requires Pair(rhi, rlo) >= Pair(dhi, dlo)
    ensures var borrow := if rlo < dlo then 1 else 0;
            Pair((rhi - dhi - borrow) % TWO32, (rlo - dlo) % TWO32) == Pair(rhi, rlo) - Pair(dhi, dlo)
  {
    var borrow := if rlo < dlo then 1 else 0;
    assert 0 <= rhi - dhi - borrow < TWO32;
    assert (rlo - dlo) % TWO32 == rlo - dlo + borrow * TWO32;
  }

  /** Bit `i` of a 64-bit number, from the word that holds it. */
  function BitOf(n: u64, i: nat): u32 {
    if i >= 32 then Bit(Hi(n), i - 32) else Bit(Lo(n), i)
  }

  /** The prefix of `n` down to bit `i` is the prefix above it, doubled, plus bit `i`. */
  lemma PrefixStep(n: u64, i: nat)
    requires i < 64
    ensures n / Pow2(i) == 2 * (n / Pow2(i + 1)) + BitOf(n, i)
  {
    DivDiv(n, Pow2(i), 2);
    assert Pow2(i + 1) == Pow2(i) * 2;
    if i >= 32 {
      Pow32();
      PowSum(32, i - 32);
      DivDiv(n, TWO32, Pow2(i - 32));
    } else {
      LowBit(n, i);
    }
  }

  lemma LowBit(n: u64, i: nat)
    requires i < 32
    ensures n / Pow2(i) % 2 == Lo(n) / Pow2(i) % 2
  {
    hide Pow2;
    HalfWord(i);
    LowBitOf(n / TWO32, n % TWO32, Pow2(i), Pow2(31 - i));
  }

  lemma LowBitOf(h: int, l: int, p: int, k: int)
    requires p > 0 && 2 * (p * k) == TWO32
    ensures (h * TWO32 + l) / p % 2 == l / p % 2
  {
    assert p * (2 * (k * h)) == h * (2 * (p * k));
    AddMultiple(l, p, 2 * (k * h));
    Parity(l / p, k * h);
  }

  lemma Parity(x: int, m: int)
    ensures (2 * m + x) % 2 == x % 2
  {
  }

  lemma HalfWord(i: nat)
    requires i < 32
    ensures 2 * (Pow2(i) * Pow2(31 - i)) == TWO32
  {
    hide Pow2;
    Pow32();
    PowSum(i, 31 - i);
  }

  /** A multiple of 2^(k+1) has bit k clear, and setting it adds 2^k. */
  lemma SetClearBit(x: u32, k: nat)
    requires k < 32 && x % Pow2(k + 1) == 0
    ensures WithBit(x, k) == x + Pow2(k) < TWO32
    ensures x % Pow2(k) == 0 && (x + Pow2(k)) % Pow2(k) == 0
  {
    var p := Pow2(k);
    var m := x / (2 * p);
    HalfWord(k);
    BitClear(x, p, Pow2(31 - k), m);
  }

  lemma BitClear(x: u32, p: int, c: int, m: int)
    requires p > 0 && c > 0 && 2 * (p * c) == TWO32 && m == x / (2 * p) && x % (2 * p) == 0
    ensures x / p == 2 * m && x % p == 0 && (x + p) % p == 0 && x + p < TWO32
  {
    Regroup(p, m);
    HasRoom(p, c, m);
    QuotientIs(x, p, 2 * m, 0);
    QuotientIs(x + p, p, 2 * m + 1, 0);
  }

  lemma Regroup(p: int, m: int)
    ensures 2 * p * m == p * (2 * m) == 2 * (p * m) && p * (2 * m + 1) == p * (2 * m) + p
  {
  }

  lemma HasRoom(p: int, c: int, m: int)
    requires p > 0 && 2 * (p * m) < 2 * (p * c)
    ensures 2 * (p * m) + 2 * p <= 2 * (p * c)
  {
    if m >= c { MulLe(p, c, m); }
    MulLe(p, m + 1, c);
    assert p * (m + 1) == p * m + p;
  }

  /** rt_divmod: restoring division, from the top bit down; division by zero gives zero. */
  method DivMod(n: u64, d: u64, wantR: bool) returns (result: u64)
    ensures result == if d == 0 then 0 else if wantR then n % d else n / d
  {
    hide Pow2, Shl, Shr, Bit, WithBit, Pair, BitOf, DivState, QuotientWords, Lo, Hi;
    var nlo, nhi, dlo, dhi := Lo(n), Hi(n), Lo(d), Hi(d);
    var rlo: u32, rhi: u32, qlo: u32, qhi: u32 := 0, 0, 0, 0;
    PairOf(d);
    ZeroWords(d);
    if dlo == 0 && dhi == 0 {
      return 0;
    }
    StartValues(n, d);
    var i := 63;
    ghost var quotient := 0;
    while i >= 0
      invariant -1 <= i <= 63
      invariant DivState(n, d, i + 1, Pair(rhi, rlo), quotient)
      invariant QuotientWords(qhi, qlo, i + 1, quotient)
    {
      var bit := if i >= 32 then Bit(nhi, i - 32) else Bit(nlo, i);
      BitRange(n, i);
      assert bit == BitOf(n, i) by { BitOfWord(n, i); }
      RoomToShift(n, d, i, Pair(rhi, rlo), quotient);
      ShiftIn(rhi, rlo, bit);
      var rhi2 := Shl(rhi, 1) + Shr(rlo, 31);
      rlo := Shl(rlo, 1) + bit;
      rhi := rhi2;
      AtLeast(rhi, rlo, dhi, dlo);
      if rhi > dhi || (rhi == dhi && rlo >= dlo) {
        Subtract(rhi, rlo, dhi, dlo);
        var b := if rlo < dlo then 1 else 0;
        rlo := (rlo - dlo) % TWO32;
        rhi := (rhi - dhi - b) % TWO32;
        SetQuotientBit(qhi, qlo, i, quotient);
        if i >= 32 {
          qhi := WithBit(qhi, i - 32);
        } else {
          qlo := WithBit(qlo, i);
        }
        quotient := 2 * quotient + 1;
      } else {
        KeepQuotientBit(qhi, qlo, i, quotient);
        quotient := 2 * quotient;
      }
      i := i - 1;
    }
    Finished(n, d, Pair(rhi, rlo), quotient, qhi, qlo);
    result := if wantR then Pair(rhi, rlo) else Pair(qhi, qlo);
  }

  /** The bits from `i` up have been divided. */
  predicate DivState(n: u64, d: u64, i: nat, r: int, quotient: int) {
    0 <= r < d && quotient >= 0 && quotient * d + r == n / Pow2(i)
  }

  /** The quotient's bits stand in their final places, with zeros below. */
  predicate QuotientWords(qhi: u32, qlo: u32, i: nat, quotient: int) {
    i <= 64 && Pair(qhi, qlo) == quotient * Pow2(i)
    && qhi % Pow2(if i >= 32 then i - 32 else 0) == 0 && qlo % Pow2(if i >= 32 then 32 else i) == 0
  }

  lemma PairOf(x: u64)
    ensures Pair(Hi(x), Lo(x)) == x
  {
  }

  lemma ZeroWords(x: u64)
    ensures Hi(x) == 0 && Lo(x) == 0 <==> x == 0
  {
  }

  lemma StartValues(n: u64, d: u64)
    requires d > 0
    ensures DivState(n, d, 64, Pair(0, 0), 0) && QuotientWords(0, 0, 64, 0)
  {
    hide Pow2;
    Pow32();
  }

  lemma BitRange(n: u64, i: nat)
    ensures 0 <= BitOf(n, i) <= 1
  {
  }

  lemma BitOfWord(n: u64, i: nat)
    ensures BitOf(n, i) == if i >= 32 then Bit(Hi(n), i - 32) else Bit(Lo(n), i)
  {
  }

  /** The partial remainder never exceeds the prefix of `n`, so doubling it cannot lose its top bit, whatever `d` is. */
  lemma RoomToShift(n: u64, d: u64, i: nat, r: int, quotient: int)
    requires i < 64 && DivState(n, d, i + 1, r, quotient)
    ensures 2 * r + BitOf(n, i) < TWO64
    ensures 2 * quotient * d + (2 * r + BitOf(n, i)) == n / Pow2(i)
    ensures 2 * r + BitOf(n, i) >= d ==> DivState(n, d, i, 2 * r + BitOf(n, i) - d, 2 * quotient + 1)
    ensures 2 * r + BitOf(n, i) < d ==> DivState(n, d, i, 2 * r + BitOf(n, i), 2 * quotient)
  {
    hide Pow2, BitOf;
    PrefixStep(n, i);
    BitRange(n, i);
    ShrInRange(n, Pow2(i));
    assert 2 * quotient * d == 2 * (quotient * d);
    assert quotient * d >= 0;
    assert (2 * quotient + 1) * d == 2 * quotient * d + d;
  }

  lemma SetQuotientBit(qhi: u32, qlo: u32, i: nat, quotient: int)
    requires i < 64 && QuotientWords(qhi, qlo, i + 1, quotient)
    ensures i >= 32 ==> WithBit(qhi, i - 32) < TWO32 && QuotientWords(WithBit(qhi, i - 32), qlo, i, 2 * quotient + 1)
    ensures i < 32 ==> WithBit(qlo, i) < TWO32 && QuotientWords(qhi, WithBit(qlo, i), i, 2 * quotient + 1)
  {
    hide Pow2, WithBit;
    Double(quotient, i);
    Double(quotient, i);
    OnePow();
    if i >= 32 {
      SetClearBit(qhi, i - 32);
      Pow32();
      PowSum(i - 32, 32);
    } else {
      SetClearBit(qlo, i);
    }
  }

  lemma KeepQuotientBit(qhi: u32, qlo: u32, i: nat, quotient: int)
    requires i < 64 && QuotientWords(qhi, qlo, i + 1, quotient)
    ensures QuotientWords(qhi, qlo, i, 2 * quotient)
  {
    hide Pow2;
    Double(quotient, i);
    OnePow();
    if i >= 32 {
      SetClearBit(qhi, i - 32);
    } else {
      SetClearBit(qlo, i);
    }
  }

  lemma Double(quotient: int, i: nat)
    ensures quotient * Pow2(i + 1) == 2 * quotient * Pow2(i)
    ensures (2 * quotient + 1) * Pow2(i) == 2 * quotient * Pow2(i) + Pow2(i)
  {
    assert quotient * (2 * Pow2(i)) == 2 * quotient * Pow2(i);
  }

  lemma OnePow()
    ensures Pow2(0) == 1
  {
  }

  lemma Finished(n: u64, d: u64, r: int, quotient: int, qhi: u32, qlo: u32)
    requires d > 0 && DivState(n, d, 0, r, quotient) && QuotientWords(qhi, qlo, 0, quotient)
    ensures r == n % d && Pair(qhi, qlo) == n / d
  {
    OnePow();
    QuotientIs(n, d, quotient, r);
  }

  // ---------------------------------------------------------------- the library functions

  /** __udivdi3 and __umoddi3. */
  method UDiv(a: u64, b: u64) returns (q: u64)
    ensures q == if b == 0 then 0 else a / b
  {
    q := DivMod(a, b, false);
  }

  method UMod(a: u64, b: u64) returns (r: u64)
    ensures r == if b == 0 then 0 else a % b
  {
    r := DivMod(a, b, true);
  }

  /** `0ull - x`. */
  function Neg(x: u64): u64 {
    (0 - x) % TWO64
  }

  /** `(unsigned long long)a`. */
  function Unsigned(a: i64): u64 {
    a % TWO64
  }

  function Magnitude(a: int): nat {
    if a < 0 then -a else a
  }

  /** Section 6.5.5 of ISO C99: the quotient with its fraction discarded, and the remainder that goes with it. */
  predicate TruncatedDivision(a: int, b: int, q: int, r: int) {
    a == b * q + r && Magnitude(r) < Magnitude(b) && (r == 0 || (r < 0 <==> a < 0))
  }

  /** The two conditions leave no choice. */
  lemma TruncatedIsUnique(a: int, b: int, q: int, r: int, q2: int, r2: int)
    requires b != 0 && TruncatedDivision(a, b, q, r) && TruncatedDivision(a, b, q2, r2)
    ensures q == q2 && r == r2
  {
    assert b * (q - q2) == r2 - r by { assert b * (q - q2) == b * q - b * q2; }
    SmallMultiple(b, q - q2);
  }

  lemma AbsMul(a: int, b: int)
    ensures Magnitude(a * b) == Magnitude(a) * Magnitude(b)
  {
    var m: int, k: int := Magnitude(a), Magnitude(b);
    Signs(m, k);
    assert (a == m || a == -m) && (b == k || b == -k);
  }

  lemma Signs(m: int, k: int)
    ensures (-m) * k == -(m * k) && m * (-k) == -(m * k) && (-m) * (-k) == m * k
    ensures m >= 0 && k >= 0 ==> m * k >= 0
  {
  }

  lemma SmallMultiple(b: int, e: int)
    requires Magnitude(b * e) < Magnitude(b)
    ensures e == 0
  {
    AbsMul(b, e);
    if e != 0 {
      MulLe(Magnitude(b), 1, Magnitude(e));
    }
  }

  /** The quotient the C standard asks for, which only the minimum divided by -1 takes out of range. */
  function Quotient(a: int, b: int): int
    requires b != 0
  {
    if (a < 0) != (b < 0) then -(Magnitude(a) / Magnitude(b)) else Magnitude(a) / Magnitude(b)
  }

  function Remainder(a: int, b: int): int
    requires b != 0
  {
    if a < 0 then -(Magnitude(a) % Magnitude(b)) else Magnitude(a) % Magnitude(b)
  }

  /** Dividing magnitudes and fixing the signs is truncating division. */
  lemma SignsAreRight(a: int, b: int)
    requires b != 0
    ensures TruncatedDivision(a, b, Quotient(a, b), Remainder(a, b))
  {
    var m: int, d: int := Magnitude(a), Magnitude(b);
    var q: int, r: int := m / d, m % d;
    assert m == d * q + r && 0 <= r < d;
    Signs(d, q);
  }

  lemma InRange(m: nat, d: nat)
    requires d > 0
    ensures 0 <= m / d <= m && 0 <= m % d <= m
  {
    ShrInRange(m, d);
    if m < d { QuotientIs(m, d, 0, m); }
  }

  /** __divdi3: truncating division, zero for a zero divisor, and the wrapped minimum where the quotient has no room. */
  method Div(a: i64, b: i64) returns (q: i64)
    ensures b == 0 ==> q == 0
    ensures b != 0 ==> q == if a == -TWO63 && b == -1 then -TWO63 else Quotient(a, b)
  {
    var neg := (a < 0) != (b < 0);
    var ua := if a < 0 then Neg(Unsigned(a)) else Unsigned(a);
    var ub := if b < 0 then Neg(Unsigned(b)) else Unsigned(b);
    MagnitudeOf(a);
    MagnitudeOf(b);
    var uq := DivMod(ua, ub, false);
    q := if neg then ToInt64(Neg(uq)) else ToInt64(uq);
    if b != 0 {
      InRange(Magnitude(a), Magnitude(b));
      OnlyOverflow(a, b);
      SignedOf(uq);
    }
  }

  /** __moddi3: the remainder has the dividend's sign. */
  method Mod(a: i64, b: i64) returns (r: i64)
    ensures r == if b == 0 then 0 else Remainder(a, b)
  {
    var neg := a < 0;
    var ua := if a < 0 then Neg(Unsigned(a)) else Unsigned(a);
    var ub := if b < 0 then Neg(Unsigned(b)) else Unsigned(b);
    MagnitudeOf(a);
    MagnitudeOf(b);
    var ur := DivMod(ua, ub, true);
    r := if neg then ToInt64(Neg(ur)) else ToInt64(ur);
    if b != 0 {
      InRange(Magnitude(a), Magnitude(b));
      SignedOf(ur);
    }
  }

  lemma MagnitudeOf(a: i64)
    ensures (if a < 0 then Neg(Unsigned(a)) else Unsigned(a)) == Magnitude(a)
  {
  }

  lemma SignedOf(x: int)
    requires 0 <= x <= TWO63
    ensures ToInt64(Neg(x)) == -x && ToInt64(x) == if x == TWO63 then -TWO63 else x
  {
  }

  lemma OnlyOverflow(a: i64, b: i64)
    requires b != 0
    ensures (a < 0) == (b < 0) && Magnitude(a) / Magnitude(b) == TWO63 <==> a == -TWO63 && b == -1
  {
    TopQuotient(Magnitude(a), Magnitude(b));
  }

  lemma TopQuotient(m: nat, d: nat)
    requires m <= TWO63 && d > 0
    ensures m / d == TWO63 <==> m == TWO63 && d == 1
  {
    if d >= 2 {
      InRange(m, d);
      var q := m / d;
      assert m == d * q + m % d;
      MulLe(q, 2, d);
      assert q * d == d * q;
      assert q < TWO63;
    }
  }

  // ---------------------------------------------------------------- shifts

  /** Shifting a number right by `b`, cut at the word boundary: what the low word takes from the high one. */
  lemma CutRight(h: int, lo: u32, p: int, c: int)
    requires p > 0 && c > 0 && p * c == TWO32
    ensures (h * TWO32 + lo) / p == TWO32 * (h / p) + (c * (h % p) + lo / p)
    ensures 0 <= c * (h % p) + lo / p < TWO32
  {
    hide *;
    LowPart(lo, p, c);
    Remainders(h, p, c);
    AddMultiple(lo, p, c * h);
    assert p * (c * h) == h * TWO32 by { Assoc(p, c, h); }
  }

  lemma Assoc(p: int, c: int, h: int)
    ensures p * (c * h) == p * c * h == h * (p * c)
  {
  }

  lemma Remainders(h: int, p: int, c: int)
    requires p > 0 && c > 0 && p * c == TWO32
    ensures c * h == TWO32 * (h / p) + c * (h % p) && 0 <= c * (h % p) <= TWO32 - c
  {
    var q, r := h / p, h % p;
    assert h == p * q + r;
    assert c * h == c * (p * q) + c * r;
    Assoc(c, p, q);
    MulLe(c, r, p - 1);
    MulLe(c, 0, r);
    assert c * (p - 1) == c * p - c;
  }

  /** `hi << (32 - b)` keeps exactly the `b` low bits of `hi`. */
  lemma SplitWord(hi: u32, p: int, c: int)
    requires p > 0 && c > 0 && p * c == TWO32
    ensures (hi * c) % TWO32 == c * (hi % p) && c * (hi % p) <= TWO32 - c
  {
    assert hi == p * (hi / p) + hi % p;
    assert hi * c == TWO32 * (hi / p) + c * (hi % p) by {
      assert (p * (hi / p) + hi % p) * c == p * c * (hi / p) + c * (hi % p);
    }
    MulLe(c, hi % p, p - 1);
    assert c * (p - 1) == TWO32 - c;
    QuotientIs(hi * c, TWO32, hi / p, c * (hi % p));
  }

  lemma LowPart(lo: u32, p: int, c: int)
    requires p > 0 && c > 0 && p * c == TWO32
    ensures 0 <= lo / p < c
  {
    assert lo == p * (lo / p) + lo % p;
    if lo / p >= c { MulLe(p, c, lo / p); }
    if lo / p <= -1 { MulLe(p, lo / p, -1); }
  }

  /** __lshrdi3: in range, a shift is a division by a power of two. */
  method LShr(u: u64, b: nat) returns (r: u64)
    requires b < 64
    ensures r == u / Pow2(b)
  {
    hide Pow2;
    var lo, hi := Lo(u), Hi(u);
    OnePow();
    if b == 0 {
      return u;
    }
    if b >= 32 {
      Pow32();
      PowSum(32, b - 32);
      DivDiv(u, TWO32, Pow2(b - 32));
      r := Pair(0, Shr(hi, b - 32));
    } else {
      Pow32();
      PowSum(b, 32 - b);
      CutRight(hi, lo, Pow2(b), Pow2(32 - b));
      SplitWord(hi, Pow2(b), Pow2(32 - b));
      r := Pair(Shr(hi, b), Shr(lo, b) + Shl(hi, 32 - b));
    }
  }

  /** __ashldi3. */
  method AShl(u: u64, b: nat) returns (r: u64)
    requires b < 64
    ensures r == (u * Pow2(b)) % TWO64
  {
    hide Pow2;
    var lo, hi := Lo(u), Hi(u);
    OnePow();
    Pow32();
    if b == 0 {
      return u;
    }
    if b >= 32 {
      PowSum(32, b - 32);
      HighOnly(hi, lo, Pow2(b - 32));
      r := Pair(Shl(lo, b - 32), 0);
    } else {
      PowSum(32 - b, b);
      CutLeft(hi, lo, Pow2(b), Pow2(32 - b));
      r := Pair(Shl(hi, b) + Shr(lo, 32 - b), Shl(lo, b));
    }
  }

  lemma WordMod(x: int, w: int)
    requires 0 <= w < TWO32
    ensures (x * TWO32 + w) % TWO64 == x % TWO32 * TWO32 + w
  {
    var q := x / TWO32;
    QuotientIs(x * TWO32 + w, TWO64, q, x % TWO32 * TWO32 + w);
  }

  lemma HighOnly(hi: u32, lo: u32, p: int)
    requires p > 0
    ensures (Pair(hi, lo) * (TWO32 * p)) % TWO64 == Pair((lo * p) % TWO32, 0)
  {
    WordMod(Pair(hi, lo) * p, 0);
    assert Pair(hi, lo) * (TWO32 * p) == Pair(hi, lo) * p * TWO32;
    var q := lo * p / TWO32;
    assert Pair(hi, lo) * p == TWO32 * (hi * p) + lo * p;
    QuotientIs(Pair(hi, lo) * p, TWO32, hi * p + q, lo * p % TWO32);
  }

  /** Shifting left: what the high word takes from the low one. */
  lemma CutLeft(hi: u32, lo: u32, p: int, c: int)
    requires p > 0 && c > 0 && c * p == TWO32
    ensures 0 <= lo / c && (hi * p) % TWO32 + lo / c < TWO32
    ensures (Pair(hi, lo) * p) % TWO64 == Pair((hi * p) % TWO32 + lo / c, (lo * p) % TWO32)
  {
    SplitWord(lo, c, p);
    SplitWord(hi, c, p);
    LowPart(lo, c, p);
    Remainders(lo, c, p);
    assert Pair(hi, lo) * p == (hi * p) * TWO32 + lo * p;
    assert lo * p == p * lo;
    WordMod(hi * p + lo / c, lo * p % TWO32);
    AddSmall(hi * p, lo / c);
  }

  lemma AddSmall(x: int, y: int)
    requires 0 <= y && x % TWO32 + y < TWO32
    ensures (x + y) % TWO32 == x % TWO32 + y
  {
  }

  /** `(unsigned)((int)x >> k)`: the sign bit is copied in. */
  function Sar(x: u32, k: nat): u32 {
    (ToInt32(x) / Pow2(k)) % TWO32
  }

  /** __ashrdi3: division rounding down, of the signed value. */
  method AShr(u: u64, b: nat) returns (r: u64)
    requires b < 64
    ensures r == (ToInt64(u) / Pow2(b)) % TWO64
  {
    hide Pow2, Pair, Sar, Shl, Shr, ToInt32, ToInt64, Lo, Hi;
    var lo, hi := Lo(u), Hi(u);
    OnePow();
    if b == 0 {
      SignedBack(u);
      return u;
    }
    if b >= 32 {
      SarHigh(u, b - 32);
      r := Pair(Sar(hi, 31), Sar(hi, b - 32));
    } else {
      SarAcross(u, b);
      r := Pair(Sar(hi, b), Shr(lo, b) + Shl(hi, 32 - b));
    }
  }

  lemma SignedBack(u: u64)
    ensures ToInt64(u) / 1 % TWO64 == u
  {
  }

  lemma SignedPair(u: u64)
    ensures ToInt64(u) == ToInt32(Hi(u)) * TWO32 + Lo(u)
  {
  }

  lemma SarHigh(u: u64, k: nat)
    requires k < 32
    ensures Pair(Sar(Hi(u), 31), Sar(Hi(u), k)) == (ToInt64(u) / Pow2(32 + k)) % TWO64
  {
    hide Pow2, ToInt64, Lo;
    SignedPair(u);
    Pow32();
    PowSum(32, k);
    var h := ToInt32(Hi(u));
    DivDiv(ToInt64(u), TWO32, Pow2(k));
    assert ToInt64(u) / TWO32 == h by { QuotientIs(ToInt64(u), TWO32, h, Lo(u)); }
    SarRange(h, Pow2(k));
    SignExtend(h / Pow2(k));
    assert h / Pow2(31) == if h < 0 then -1 else 0;
  }

  lemma SarRange(h: int, p: int)
    requires p > 0 && -0x8000_0000 <= h < 0x8000_0000
    ensures -0x8000_0000 <= h / p < 0x8000_0000 && (h / p < 0 <==> h < 0)
  {
    var q := h / p;
    assert h == p * q + h % p;
    if q >= 0 { MulLe(q, 1, p); assert q * p == p * q; }
    if q <= -1 {
      MulLe(p, q, -1);
      MulLe(-q - 1, 1, p);
      assert (-q - 1) * p == -(p * q) - p;
    }
  }

  lemma SignExtend(x: int)
    requires -0x8000_0000 <= x < 0x8000_0000
    ensures x % TWO64 == (if x < 0 then TWO32 - 1 else 0) * TWO32 + x % TWO32
  {
  }

  lemma SarAcross(u: u64, b: nat)
    requires 0 < b < 32
    ensures Shr(Lo(u), b) + Shl(Hi(u), 32 - b) < TWO32
    ensures Pair(Sar(Hi(u), b), Shr(Lo(u), b) + Shl(Hi(u), 32 - b)) == (ToInt64(u) / Pow2(b)) % TWO64
  {
    hide Pow2, ToInt64, Lo, Hi, ToInt32;
    SignedPair(u);
    var p, c, h, hi, lo := Pow2(b), Pow2(32 - b), ToInt32(Hi(u)), Hi(u), Lo(u);
    Pow32();
    PowSum(b, 32 - b);
    CutRight(h, lo, p, c);
    SplitWord(hi, p, c);
    SameLowBits(hi, p, c);
    WordMod(h / p, c * (h % p) + lo / p);
  }

  lemma SameLowBits(x: u32, p: int, c: int)
    requires p > 0 && p * c == TWO32
    ensures ToInt32(x) % p == x % p
  {
    if x >= 0x8000_0000 {
      assert x - TWO32 == p * (x / p - c) + x % p by { assert p * (x / p - c) == p * (x / p) - p * c; }
      QuotientIs(x - TWO32, p, x / p - c, x % p);
    }
  }
}
