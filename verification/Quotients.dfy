/**
  Division by a positive number.
 */
module Quotients {
  lemma MulMonotone(d: nat, a: int, b: int)
    requires a <= b
    ensures d * a <= d * b
  {
  }

  lemma QuotientBounds(v: nat, d: nat)
    requires d >= 1
    ensures d * (v / d) <= v < d * (v / d) + d
  {
  }

  lemma QuotientIs(v: nat, d: nat, q: nat)
    requires d >= 1 && d * q <= v < d * q + d
    ensures v / d == q
  {
    QuotientBounds(v, d);
    var e := v / d;
    if e < q { MulMonotone(d, e + 1, q); }
    if e > q { MulMonotone(d, q + 1, e); }
  }
}
