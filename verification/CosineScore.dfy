/** The Go `cosineSimilarity`, computed with the approximate root on both norms. */
module CosineScore {
  import opened RealArith
  import opened Vectors
  import opened NewtonRoot

  /** Ten-round root. */
  function Root(x: real): (z: real)
    requires x > 0.0
    ensures z > 0.0
  {
    Newton(x, ROUNDS)
  }

  function Cosine(a: Vec, b: Vec): real {
    ZeroEnergy(a);
    ZeroEnergy(b);
    if |a| != |b| then 0.0
    else if Energy(a) == 0.0 || Energy(b) == 0.0 then 0.0
    else Dot(a, b, |a|) / (Root(Energy(a)) * Root(Energy(b)))
  }

  lemma RootOver(x: real)
    requires x > 0.0
    ensures Root(x) * Root(x) >= x
  {
    hide Newton, Max;
    SquaredErrorBound(x);
  }

  lemma RatioBounds(d: real, p: real, q: real, s: real, t: real)
    requires p > 0.0 && q > 0.0 && s > 0.0 && t > 0.0
    requires s * s >= p && t * t >= q && d * d <= p * q
    ensures -1.0 <= d / (s * t) <= 1.0
  {
    var m := s * t;
    MulPositive(s, t);
    MulMonotone(p, q, s * s, t * t);
    assert m * m == (s * s) * (t * t);
    SquareOrder(d, m);
    DivOrder(d, 1.0, m);
    DivOrder(d, -1.0, m);
  }

  lemma RatioAbove(d: real, p: real, q: real, s: real, t: real, theta: real)
    requires p > 0.0 && q > 0.0 && s > 0.0 && t > 0.0 && theta >= 0.0
    requires s * s >= p && t * t >= q && d / (s * t) > theta
    ensures d > 0.0 && d * d > theta * theta * (p * q)
  {
    var m := s * t;
    MulPositive(s, t);
    DivOrder(d, theta, m);
    MulNonNegative(theta, m);
    SquareStrictOrder(theta * m, d);
    MulMonotone(p, q, s * s, t * t);
    MulNonNegative(theta, theta);
    MulMonotone(theta * theta, p * q, theta * theta, m * m) by {
      assert m * m == (s * s) * (t * t);
    }
    assert (theta * m) * (theta * m) == theta * theta * (m * m);
  }

  /** Every score lies in [-1, 1]. */
  lemma CosineBounds(a: Vec, b: Vec)
    ensures -1.0 <= Cosine(a, b) <= 1.0
  {
    hide Root, Dot;
    ZeroEnergy(a);
    ZeroEnergy(b);
    if |a| == |b| && Energy(a) != 0.0 && Energy(b) != 0.0 {
      CauchySchwarz(a, b, |a|);
      RootOver(Energy(a));
      RootOver(Energy(b));
      RatioBounds(Dot(a, b, |a|), Energy(a), Energy(b), Root(Energy(a)), Root(Energy(b)));
    }
  }

  lemma CosineSymmetric(a: Vec, b: Vec)
    ensures Cosine(a, b) == Cosine(b, a)
  {
    hide Root;
    if |a| == |b| {
      DotSymmetric(a, b, |a|);
    }
  }

  /** The score never overstates: above a threshold, the exact cosine is above it too
      (dot > 0 and dot^2 > theta^2 |a|^2 |b|^2). */
  lemma CosineNeverOverstates(a: Vec, b: Vec, theta: real)
    requires theta >= 0.0 && Cosine(a, b) > theta
    ensures |a| == |b|
    ensures Dot(a, b, |a|) > 0.0
    ensures Dot(a, b, |a|) * Dot(a, b, |a|) > theta * theta * (Energy(a) * Energy(b))
  {
    hide Root, Dot;
    ZeroEnergy(a);
    ZeroEnergy(b);
    RootOver(Energy(a));
    RootOver(Energy(b));
    RatioAbove(Dot(a, b, |a|), Energy(a), Energy(b), Root(Energy(a)), Root(Energy(b)), theta);
  }

  /** A vector's score against itself depends only on its energy, through the root's error. */
  lemma SelfScore(a: Vec)
    requires Energy(a) > 0.0
    ensures Cosine(a, a) == 1.0 / (1.0 + RelError(Energy(a), ROUNDS))
  {
    hide Newton, RelError;
    var e := Energy(a);
    NewtonError(e, ROUNDS);
    SelfRatio(e, Root(e), RelError(e, ROUNDS));
  }

  lemma SelfRatio(e: real, z: real, r: real)
    requires e > 0.0 && z > 0.0 && r > -1.0 && z * z == e * (1.0 + r)
    ensures e / (z * z) == 1.0 / (1.0 + r)
  {
    var q := 1.0 / (1.0 + r);
    assert q * (1.0 + r) == 1.0;
    assert q * (z * z) == e by {
      assert q * (e * (1.0 + r)) == e * (q * (1.0 + r));
    }
    MulPositive(z, z);
  }

  lemma RatioSquared(d: real, s: real, t: real, p: real, q: real)
    requires s > 0.0 && t > 0.0 && s * s == p && t * t == q
    ensures s * t > 0.0
    ensures var c := d / (s * t); c * c * (p * q) == d * d && (c > 0.0 <==> d > 0.0) && (c < 0.0 <==> d < 0.0)
  {
    MulPositive(s, t);
    var m := s * t;
    var c := d / m;
    assert c * m == d;
    assert p * q == m * m;
    DivOrder(d, 0.0, m);
  }

  /** The score exactly: its square times both energies, each enlarged by the error of its root, is the squared
      inner product, and it has the sign of the inner product. Vectors without energy score 0. */
  lemma CosineSquared(a: Vec, b: Vec)
    requires |a| == |b|
    ensures Energy(a) == 0.0 || Energy(b) == 0.0 ==> Cosine(a, b) == 0.0
    ensures Energy(a) > 0.0 && Energy(b) > 0.0 ==>
      var p := Energy(a) * (1.0 + RelError(Energy(a), ROUNDS));
      var q := Energy(b) * (1.0 + RelError(Energy(b), ROUNDS));
      var c, d := Cosine(a, b), Dot(a, b, |a|);
      c * c * (p * q) == d * d && (c > 0.0 <==> d > 0.0) && (c < 0.0 <==> d < 0.0)
  {
    hide Root, RelError, Dot;
    if Energy(a) > 0.0 && Energy(b) > 0.0 {
      var s, t := Root(Energy(a)), Root(Energy(b));
      RootSquare(Energy(a));
      RootSquare(Energy(b));
      CosineIs(a, b, s, t);
      hide Cosine;
      RatioSquared(Dot(a, b, |a|), s, t, s * s, t * t);
    }
  }

  lemma RootSquare(x: real)
    requires x > 0.0
    ensures Root(x) * Root(x) == x * (1.0 + RelError(x, ROUNDS))
  {
    hide Newton, RelError;
    NewtonError(x, ROUNDS);
  }

  method Sqrt10(x: real) returns (z: real)
    requires x > 0.0
    ensures z == Root(x)
  {
    z := Sqrt(x);
  }

  lemma CosineIs(a: Vec, b: Vec, rootA: real, rootB: real)
    requires |a| == |b| && Energy(a) > 0.0 && Energy(b) > 0.0
    requires rootA == Root(Energy(a)) && rootB == Root(Energy(b))
    ensures rootA * rootB != 0.0 && Cosine(a, b) == Dot(a, b, |a|) / (rootA * rootB)
  {
    hide Root, Dot;
    MulPositive(rootA, rootB);
  }

  /** The loop of `cosineSimilarity`. */
  method CosineSimilarity(a: Vec, b: Vec) returns (score: real)
    ensures score == Cosine(a, b)
    ensures |a| != |b| ==> score == 0.0
    ensures -1.0 <= score <= 1.0
  {
    CosineBounds(a, b);
    ZeroEnergy(a);
    ZeroEnergy(b);
    hide Root;
    if |a| != |b| {
      return 0.0;
    }
    var dot, normA, normB := 0.0, 0.0, 0.0;
    for i := 0 to |a|
      invariant dot == Dot(a, b, i) && normA == Dot(a, a, i) && normB == Dot(b, b, i)
    {
      dot := dot + a[i] * b[i];
      normA := normA + a[i] * a[i];
      normB := normB + b[i] * b[i];
    }
    if normA == 0.0 || normB == 0.0 {
      return 0.0;
    }
    hide Dot, Cosine;
    var rootA := Sqrt10(normA);
    var rootB := Sqrt10(normB);
    CosineIs(a, b, rootA, rootB);
    return dot / (rootA * rootB);
  }
}
