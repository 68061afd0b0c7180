/** Facts about exact rational arithmetic that the solver does not find alone. */
module Rationals {

  lemma DivMul(a: real, b: real)
    requires b != 0.0
    ensures (a / b) * b == a
  {
  }

  lemma SubFractions(a: real, b: real, c: real, d: real)
    requires b > 0.0 && d > 0.0
    ensures a / b - c / d == (a * d - c * b) / (b * d)
  {
    var u, v := a / b, c / d;
    DivMul(a, b);
    DivMul(c, d);
    assert (u - v) * (b * d) == (u * b) * d - (v * d) * b;
    DivMul(a * d - c * b, b * d);
  }

  lemma AddFractions(a: real, b: real, c: real, d: real)
    requires b > 0.0 && d > 0.0
    ensures a / b + c / d == (a * d + c * b) / (b * d)
  {
    SubFractions(a, b, -c, d);
    assert -c / d == -(c / d);
  }

  /** A positive numerator over a larger positive divisor gives a smaller quotient. */
  lemma DivDecreasing(a: real, b: real, c: real)
    requires a > 0.0 && 0.0 < b < c
    ensures a / c < a / b
  {
    var u, v := a / b, a / c;
    DivMul(a, b);
    DivMul(a, c);
    assert u > 0.0;
    assert u * c > u * b;
  }

  /** Dividing by the same positive divisor keeps a strict order. */
  lemma DivPreservesOrder(a: real, b: real, d: real)
    requires a < b && d > 0.0
    ensures a / d < b / d
  {
    DivMul(a, d);
    DivMul(b, d);
    assert (b / d - a / d) * d == b - a;
  }
}
