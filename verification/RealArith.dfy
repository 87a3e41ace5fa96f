/** Small facts of nonlinear real arithmetic, each proved once and called by name. */
module RealArith {

  lemma SquareNonNegative(x: real)
    ensures x * x >= 0.0
  {
  }

  lemma MulNonNegative(x: real, y: real)
    requires x >= 0.0 && y >= 0.0
    ensures x * y >= 0.0
  {
  }

  lemma MulPositive(x: real, y: real)
    requires x > 0.0 && y > 0.0
    ensures x * y > 0.0
  {
  }

  /** Products of non-negative factors grow with each factor. */
  lemma MulMonotone(x: real, y: real, u: real, v: real)
    requires 0.0 <= x <= u && 0.0 <= y <= v
    ensures 0.0 <= x * y <= u * v
  {
    MulNonNegative(x, y);
    MulNonNegative(u - x, y);
    MulNonNegative(u, v - y);
    assert u * v - x * y == (u - x) * y + u * (v - y);
  }

  /** Squares order their absolute values. */
  lemma SquareOrder(u: real, v: real)
    requires v >= 0.0 && u * u <= v * v
    ensures -v <= u <= v
  {
    if u > v {
      assert (u - v) * (u + v) == u * u - v * v;
      MulPositive(u - v, u + v);
    } else if u < -v {
      assert (-u - v) * (v - u) == u * u - v * v;
      MulPositive(-u - v, v - u);
    }
  }

  lemma SquareStrictOrder(u: real, v: real)
    requires 0.0 <= u < v
    ensures u * u < v * v
  {
    MulPositive(v - u, v + u);
    assert (v - u) * (v + u) == v * v - u * u;
  }

  lemma DivOrder(x: real, y: real, d: real)
    requires d > 0.0
    ensures x <= y * d ==> x / d <= y
    ensures x >= y * d ==> x / d >= y
    ensures x < y * d ==> x / d < y
    ensures x > y * d ==> x / d > y
  {
    var q := x / d;
    assert x == q * d;
    if q > y { MulPositive(q - y, d); assert (q - y) * d == q * d - y * d; }
    if q < y { MulPositive(y - q, d); assert (y - q) * d == y * d - q * d; }
  }

  lemma CrossDivide(a: real, c: real, b: real, d: real)
    requires c > 0.0 && d > 0.0 && a * d <= b * c
    ensures a / c <= b / d
  {
    var q := b / d;
    assert b == q * d;
    assert (q * c - a) * d == b * c - a * d;
    if q * c < a {
      MulPositive(a - q * c, d);
    }
    DivOrder(a, q, c);
  }
}
