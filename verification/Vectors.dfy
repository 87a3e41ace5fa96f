/** Finite real vectors: inner products over a prefix, scaling, and Cauchy-Schwarz.
    Both similarity engines (Go and Julia) are built on these. */
module Vectors {
  import opened RealArith

  type Vec = seq<real>

  /** Inner product of the first `n` coordinates. */
  function Dot(a: Vec, b: Vec, n: nat): real
    requires n <= |a| && n <= |b|
  {
    if n == 0 then 0.0 else Dot(a, b, n - 1) + a[n - 1] * b[n - 1]
  }

  /** The squared Euclidean norm. */
  function Energy(a: Vec): real {
    Dot(a, a, |a|)
  }

  function Scale(c: real, a: Vec): (r: Vec)
    ensures |r| == |a|
  {
    seq(|a|, i requires 0 <= i < |a| => c * a[i])
  }

  predicate NonNegative(a: Vec) {
    forall i :: 0 <= i < |a| ==> a[i] >= 0.0
  }

  lemma {:induction false} DotSymmetric(a: Vec, b: Vec, n: nat)
    requires n <= |a| && n <= |b|
    ensures Dot(a, b, n) == Dot(b, a, n)
  {
    if n == 0 {
    } else {
      DotSymmetric(a, b, n - 1);
    }
  }

  predicate IsProduct(w: real, k: real, r: real) {
    w == k * r
  }

  lemma ScaleStep(c: real, d: real, p: real, x: real, y: real, q: real, r: real, u: real, v: real, w: real)
    requires IsProduct(q, c * d, p) && r == p + x * y && u == c * x && v == d * y && w == q + u * v
    ensures IsProduct(w, c * d, r)
  {
    assert u * v == c * d * (x * y);
  }

  lemma DotStep(a: Vec, b: Vec, n: nat)
    requires 0 < n <= |a| && n <= |b|
    ensures Dot(a, b, n) == Dot(a, b, n - 1) + a[n - 1] * b[n - 1]
  {
  }

  lemma {:induction false} DotScaled(c: real, d: real, a: Vec, b: Vec, n: nat)
    requires n <= |a| && n <= |b|
    ensures IsProduct(Dot(Scale(c, a), Scale(d, b), n), c * d, Dot(a, b, n))
  {
    if n == 0 {
    } else {
      hide Dot, IsProduct;
      var s, t := Scale(c, a), Scale(d, b);
      DotScaled(c, d, a, b, n - 1);
      DotStep(a, b, n);
      DotStep(s, t, n);
      ScaleStep(c, d, Dot(a, b, n - 1), a[n - 1], b[n - 1], Dot(s, t, n - 1), Dot(a, b, n),
        s[n - 1], t[n - 1], Dot(s, t, n));
    }
  }

  /** Scaling both vectors scales the inner product by both factors. */
  lemma DotScale(c: real, d: real, a: Vec, b: Vec, n: nat)
    requires n <= |a| && n <= |b|
    ensures Dot(Scale(c, a), Scale(d, b), n) == c * d * Dot(a, b, n)
  {
    hide Dot, Scale;
    DotScaled(c, d, a, b, n);
  }

  lemma DivideIsScale(raw: Vec, norm: real, i: nat)
    requires norm > 0.0 && i < |raw|
    ensures raw[i] / norm == Scale(1.0 / norm, raw)[i]
  {
    assert raw[i] / norm == 1.0 / norm * raw[i];
  }

  lemma {:induction false} DotNonNegative(a: Vec, b: Vec, n: nat)
    requires n <= |a| && n <= |b| && NonNegative(a) && NonNegative(b)
    ensures Dot(a, b, n) >= 0.0
  {
    if n == 0 {
    } else {
      DotNonNegative(a, b, n - 1);
      assert a[n - 1] * b[n - 1] >= 0.0;
    }
  }

  /** A prefix has no more energy than a longer one, and never negative energy. */
  lemma {:induction false} DotSelfMonotone(a: Vec, m: nat, n: nat)
    requires m <= n <= |a|
    ensures 0.0 <= Dot(a, a, m) <= Dot(a, a, n)
  {
    if n == 0 {
    } else {
      SquareNonNegative(a[n - 1]);
      if m == n {
        DotSelfMonotone(a, m - 1, n - 1);
      } else {
        DotSelfMonotone(a, m, n - 1);
      }
    }
  }

  /** A vector of zero energy is zero everywhere, and conversely. */
  lemma ZeroEnergy(a: Vec)
    ensures Energy(a) >= 0.0
    ensures Energy(a) == 0.0 <==> forall i :: 0 <= i < |a| ==> a[i] == 0.0
  {
    DotSelfMonotone(a, 0, |a|);
    if Energy(a) == 0.0 {
      forall i | 0 <= i < |a| ensures a[i] == 0.0 {
        DotSelfMonotone(a, 0, i);
        DotSelfMonotone(a, i + 1, |a|);
        assert Dot(a, a, i + 1) == Dot(a, a, i) + a[i] * a[i];
        SquareOrder(a[i], 0.0);
      }
    }
    if forall i :: 0 <= i < |a| ==> a[i] == 0.0 {
      ZeroDot(a, |a|);
    }
  }

  lemma {:induction false} ZeroDot(a: Vec, n: nat)
    requires n <= |a| && forall i :: 0 <= i < |a| ==> a[i] == 0.0
    ensures Dot(a, a, n) == 0.0
  {
    if n == 0 {
    } else {
      ZeroDot(a, n - 1);
    }
  }

  /** One step of Cauchy-Schwarz: the cross term is dominated by the mixed energies. */
  lemma CrossTerm(d: real, p: real, q: real, x: real, y: real)
    requires p >= 0.0 && q >= 0.0 && d * d <= p * q
    ensures 2.0 * d * x * y <= p * y * y + q * x * x
  {
    var u, v := 2.0 * d * x * y, p * y * y + q * x * x;
    var s, t := p * y * y, q * x * x;
    SquareNonNegative(x);
    SquareNonNegative(y);
    assert s == p * (y * y) && t == q * (x * x);
    assert s >= 0.0 && t >= 0.0;
    var w := (x * y) * (x * y);
    SquareNonNegative(x * y);
    assert u * u == 4.0 * (d * d) * w;
    assert s * t == (p * q) * w;
    assert (d * d) * w <= (p * q) * w;
    SquareNonNegative(s - t);
    assert v * v == (s - t) * (s - t) + 4.0 * (s * t);
    assert u * u <= v * v;
    SquareOrder(u, v);
  }

  /** Cauchy-Schwarz: dot(a,b)^2 <= |a|^2 |b|^2 for every pair of vectors and every prefix. */
  lemma {:induction false} CauchySchwarz(a: Vec, b: Vec, n: nat)
    requires n <= |a| && n <= |b|
    ensures Dot(a, b, n) * Dot(a, b, n) <= Dot(a, a, n) * Dot(b, b, n)
  {
    if n == 0 {
    } else {
      CauchySchwarz(a, b, n - 1);
      DotSelfMonotone(a, 0, n - 1);
      DotSelfMonotone(b, 0, n - 1);
      var d, p, q, x, y := Dot(a, b, n - 1), Dot(a, a, n - 1), Dot(b, b, n - 1), a[n - 1], b[n - 1];
      CrossTerm(d, p, q, x, y);
      calc {
        (d + x * y) * (d + x * y);
        d * d + 2.0 * d * x * y + x * y * x * y;
      <=
        p * q + p * y * y + q * x * x + x * x * y * y;
        (p + x * x) * (q + y * y);
      }
    }
  }
}
