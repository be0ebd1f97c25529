/** Facts about products, quotients and remainders that the solver needs one at a time. */
module Arithmetic {

  lemma MulLe(a: int, x: int, y: int)
    requires a >= 0 && x <= y
    ensures a * x <= a * y
  {
  }

  /** Division is what leaves a remainder in range. */
  lemma QuotientIs(x: int, d: int, q: int, r: int)
    requires d > 0 && x == d * q + r && 0 <= r < d
    ensures x / d == q && x % d == r
  {
    var e := x / d - q;
    assert x / d * d + x % d == x;
    assert e * d == r - x % d by { assert (x / d - q) * d == x / d * d - q * d; }
    if e >= 1 { MulLe(d, 1, e); }
    if e <= -1 { MulLe(d, e, -1); }
  }

  lemma DivDiv(x: int, a: int, b: int)
    requires a > 0 && b > 0
    ensures a * b > 0 && x / a / b == x / (a * b)
  {
    var q, r, s := x / a / b, x / a % b, x % a;
    Nested(x, a, b, q, r, s);
    QuotientIs(x, a * b, q, a * r + s);
  }

  lemma Nested(x: int, a: int, b: int, q: int, r: int, s: int)
    requires a > 0 && b > 0 && x / a == b * q + r && x == a * (x / a) + s && 0 <= r < b && 0 <= s < a
    ensures a * b > 0 && x == a * b * q + (a * r + s) && 0 <= a * r + s < a * b
  {
    Distribute(a, b, q, r);
    MulLe(a, r, b - 1);
    MulLe(a, 0, r);
    MulLe(a, 1, b);
    assert a * (b - 1) == a * b - a;
  }

  lemma Distribute(a: int, b: int, q: int, r: int)
    ensures a * (b * q + r) == a * b * q + a * r
  {
  }

  lemma AddMultiple(x: int, p: int, m: int)
    requires p > 0
    ensures (p * m + x) / p == m + x / p
  {
    assert x == p * (x / p) + x % p;
    assert p * m + x == p * (m + x / p) + x % p;
    QuotientIs(p * m + x, p, m + x / p, x % p);
  }

  lemma ModMultiple(a: int, q: int)
    requires a > 0
    ensures (a * q) % a == 0
  {
    QuotientIs(a * q, a, q, 0);
  }
}
