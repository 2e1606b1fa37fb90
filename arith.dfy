/** Facts about integer multiplication and Euclidean division used by the period arithmetic. */
module Arith {

  lemma MulMonotone(a: int, b: int, p: int)
    requires a <= b && p >= 0
    ensures a * p <= b * p
  {
    assert b * p - a * p == (b - a) * p;
  }

  lemma MulStrict(a: int, b: int, p: int)
    requires a < b && p > 0
    ensures a * p < b * p
  {
    assert b * p - a * p == (b - a) * p;
  }

  /** With a positive factor, comparing products compares the other factors. */
  lemma MulLeCancel(a: int, b: int, p: int)
    requires p > 0
    ensures a * p <= b * p <==> a <= b
  {
    if a <= b {
      MulMonotone(a, b, p);
    } else {
      MulStrict(b, a, p);
    }
  }

  /** Euclidean division is determined by quotient and remainder. */
  lemma DivUnique(x: int, d: int, q: int, r: int)
    requires d > 0 && x == q * d + r && 0 <= r < d
    ensures x / d == q && x % d == r
  {
    var q', r' := x / d, x % d;
    assert x == q' * d + r' && 0 <= r' < d;
    if q' < q {
      MulMonotone(q' + 1, q, d);
    } else if q < q' {
      MulMonotone(q + 1, q', d);
    }
  }

  /** Scaling both sides of a division by the same positive factor leaves the quotient alone. */
  lemma DivScale(a: int, m: int, s: int)
    requires a >= 0 && m > 0 && s > 0
    ensures (a * s) / (m * s) == a / m
  {
    var q, r := a / m, a % m;
    assert a == q * m + r;
    assert a * s == q * (m * s) + r * s;
    MulStrict(r, m, s);
    MulMonotone(0, r, s);
    DivUnique(a * s, m * s, q, r * s);
  }

  /** Dividing a natural number by a positive one gives a natural quotient and remainder. */
  lemma DivModNat(x: int, d: int)
    requires x >= 0 && d > 0
    ensures x / d >= 0 && 0 <= x % d < d
  {
    var q, r := x / d, x % d;
    assert x == q * d + r;
    if q < 0 {
      MulMonotone(q, -1, d);
    }
  }
}
