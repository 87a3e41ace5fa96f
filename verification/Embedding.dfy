/** The Julia report embedding and cosine. Words enter as their 64-bit hashes (lower-casing, splitting
    and `hash` are library calls); the library square root is a parameter, exact on non-negatives. */
module Embedding {
  import opened RealArith
  import opened Vectors

  type Hash = h: int | 0 <= h < 0x1_0000_0000_0000_0000

  const DIM: nat := 128

  type Embedded = v: Vec | |v| == DIM witness seq(DIM, _ => 0.0)

  ghost predicate ExactRoot(root: real -> real) {
    forall x: real :: x >= 0.0 ==> root(x) >= 0.0 && root(x) * root(x) == x
  }

  function Low(h: Hash): nat {
    h % DIM
  }

  function High(h: Hash): nat {
    (h / 0x1_0000_0000) % DIM
  }

  /** What one word adds to coordinate `j`: 1 at its low index and 1/2 at its high index. */
  function Share(h: Hash, j: nat): real {
    (if Low(h) == j then 1.0 else 0.0) + if High(h) == j then 0.5 else 0.0
  }

  /** Coordinate `j` after the first `n` words. */
  function Coordinate(words: seq<Hash>, n: nat, j: nat): real
    requires n <= |words|
  {
    if n == 0 then 0.0 else Coordinate(words, n - 1, j) + Share(words[n - 1], j)
  }

  function RawEmbedding(words: seq<Hash>): (v: Vec)
    ensures |v| == DIM
  {
    seq(DIM, j requires 0 <= j < DIM => Coordinate(words, |words|, j))
  }

  function UnitOf(root: real -> real, raw: Vec): (v: Vec)
    ensures |v| == |raw|
  {
    var norm := root(Energy(raw));
    if norm > 0.0 then Scale(1.0 / norm, raw) else raw
  }

  function EmbeddingOf(root: real -> real, words: seq<Hash>): Embedded {
    UnitOf(root, RawEmbedding(words))
  }

  /** `cosine_similarity`, also the score Qdrant reports for a collection with Cosine distance. */
  function Similarity(root: real -> real, a: Vec, b: Vec): real
    requires |a| == |b|
  {
    Ratio(Dot(a, b, |a|), root(Energy(a)), root(Energy(b)))
  }

  function Ratio(dot: real, normA: real, normB: real): real {
    if normA == 0.0 || normB == 0.0 then 0.0 else dot / (normA * normB)
  }

  // ----- Sum of coordinates -----

  function SumTo(v: Vec, n: nat): real
    requires n <= |v|
  {
    if n == 0 then 0.0 else SumTo(v, n - 1) + v[n - 1]
  }

  function CoordinateSum(words: seq<Hash>, n: nat, m: nat): real
    requires n <= |words|
  {
    if m == 0 then 0.0 else CoordinateSum(words, n, m - 1) + Coordinate(words, n, m - 1)
  }

  lemma {:induction false} AddWord(words: seq<Hash>, n: nat, m: nat)
    requires n < |words|
    ensures CoordinateSum(words, n + 1, m) == CoordinateSum(words, n, m)
      + (if Low(words[n]) < m then 1.0 else 0.0) + if High(words[n]) < m then 0.5 else 0.0
  {
    if m == 0 {
    } else {
      AddWord(words, n, m - 1);
    }
  }

  lemma {:induction false} EmptySum(words: seq<Hash>, m: nat)
    ensures CoordinateSum(words, 0, m) == 0.0
  {
    if m == 0 {
    } else {
      EmptySum(words, m - 1);
    }
  }

  lemma {:induction false} CoordinateSumIs(words: seq<Hash>, n: nat)
    requires n <= |words|
    ensures CoordinateSum(words, n, DIM) == 1.5 * n as real
  {
    if n == 0 {
      EmptySum(words, DIM);
    } else {
      CoordinateSumIs(words, n - 1);
      AddWord(words, n - 1, DIM);
    }
  }

  lemma {:induction false} SumOfRaw(words: seq<Hash>, m: nat)
    requires m <= DIM
    ensures SumTo(RawEmbedding(words), m) == CoordinateSum(words, |words|, m)
  {
    if m == 0 {
    } else {
      SumOfRaw(words, m - 1);
    }
  }

  /** Mass: before normalisation the coordinates add up to 1.5 times the number of words. */
  lemma RawMass(words: seq<Hash>)
    ensures SumTo(RawEmbedding(words), DIM) == 1.5 * |words| as real
  {
    SumOfRaw(words, DIM);
    CoordinateSumIs(words, |words|);
  }

  // ----- Which words a coordinate counts -----

  predicate LowIs(h: Hash, j: nat) {
    h % 128 == j
  }

  predicate HighIs(h: Hash, j: nat) {
    h / 0x1_0000_0000 % 128 == j
  }

  /** Positions before `n` of words whose low part leads to coordinate `j` ... */
  function LowAt(words: seq<Hash>, n: nat, j: nat): set<nat>
    requires n <= |words|
  {
    set i: nat | i < n && LowIs(words[i], j)
  }

  /** ... and of words whose high part, shifted by 32 bits, does. */
  function HighAt(words: seq<Hash>, n: nat, j: nat): set<nat>
    requires n <= |words|
  {
    set i: nat | i < n && HighIs(words[i], j)
  }

  /** A coordinate is the number of words it is low index of plus half the number it is high index of. */
  lemma {:induction false} CoordinateCounts(words: seq<Hash>, n: nat, j: nat)
    requires n <= |words|
    ensures Coordinate(words, n, j) == |LowAt(words, n, j)| as real + 0.5 * |HighAt(words, n, j)| as real
  {
    if n == 0 {
    } else {
      hide LowAt, HighAt;
      CoordinateCounts(words, n - 1, j);
      CountsStep(words, n, j);
    }
  }

  lemma CountsStep(words: seq<Hash>, n: nat, j: nat)
    requires 0 < n <= |words|
    ensures |LowAt(words, n, j)| == |LowAt(words, n - 1, j)| + if LowIs(words[n - 1], j) then 1 else 0
    ensures |HighAt(words, n, j)| == |HighAt(words, n - 1, j)| + if HighIs(words[n - 1], j) then 1 else 0
  {
    hide LowIs, HighIs;
    if LowIs(words[n - 1], j) {
      assert LowAt(words, n, j) == LowAt(words, n - 1, j) + {n - 1};
    } else {
      assert LowAt(words, n, j) == LowAt(words, n - 1, j);
    }
    if HighIs(words[n - 1], j) {
      assert HighAt(words, n, j) == HighAt(words, n - 1, j) + {n - 1};
    } else {
      assert HighAt(words, n, j) == HighAt(words, n - 1, j);
    }
  }

  // ----- Order and repetition do not matter -----

  lemma {:induction false} CoordinateConcat(a: seq<Hash>, b: seq<Hash>, n: nat, j: nat)
    requires n <= |b|
    ensures Coordinate(a + b, |a| + n, j) == Coordinate(a, |a|, j) + Coordinate(b, n, j)
  {
    hide Share;
    if n == 0 {
      CoordinatePrefix(a, b, |a|, j);
    } else {
      CoordinateConcat(a, b, n - 1, j);
    }
  }

  lemma {:induction false} CoordinatePrefix(a: seq<Hash>, b: seq<Hash>, n: nat, j: nat)
    requires n <= |a|
    ensures Coordinate(a + b, n, j) == Coordinate(a, n, j)
  {
    hide Share;
    if n == 0 {
    } else {
      CoordinatePrefix(a, b, n - 1, j);
    }
  }

  lemma RawConcat(a: seq<Hash>, b: seq<Hash>, j: nat)
    ensures Coordinate(a + b, |a + b|, j) == Coordinate(a, |a|, j) + Coordinate(b, |b|, j)
  {
    CoordinateConcat(a, b, |b|, j);
  }

  lemma {:induction false} CoordinateReorder(a: seq<Hash>, b: seq<Hash>, j: nat)
    requires multiset(a) == multiset(b)
    ensures Coordinate(a, |a|, j) == Coordinate(b, |b|, j)
    decreases |a|
  {
    hide Share;
    assert |a| == |multiset(a)| && |b| == |multiset(b)|;
    if a == [] {
    } else {
      var w, rest := a[|a| - 1], a[..|a| - 1];
      assert a == rest + [w];
      assert w in multiset(b);
      var i :| 0 <= i < |b| && b[i] == w;
      var left, right := b[..i], b[i + 1..];
      assert b == left + [w] + right;
      RemoveSame(rest, left, right, w);
      CoordinateReorder(rest, left + right, j);
      RawConcat(rest, [w], j);
      RawConcat(left + [w], right, j);
      RawConcat(left, [w], j);
      RawConcat(left, right, j);
    }
  }

  lemma RemoveSame(rest: seq<Hash>, left: seq<Hash>, right: seq<Hash>, w: Hash)
    requires multiset(rest + [w]) == multiset(left + [w] + right)
    ensures multiset(rest) == multiset(left + right)
  {
    assert multiset(rest + [w]) == multiset(rest) + multiset{w};
    assert multiset(left + [w] + right) == multiset(left) + multiset{w} + multiset(right);
    assert multiset(rest) == multiset(rest + [w]) - multiset{w};
    assert multiset(left) + multiset(right) == multiset(left + [w] + right) - multiset{w};
  }

  /** Reordering the words leaves the raw embedding unchanged. */
  lemma RawReorder(a: seq<Hash>, b: seq<Hash>)
    requires multiset(a) == multiset(b)
    ensures RawEmbedding(a) == RawEmbedding(b)
  {
    forall j | 0 <= j < DIM ensures RawEmbedding(a)[j] == RawEmbedding(b)[j] {
      CoordinateReorder(a, b, j);
    }
  }

  function Repeat(words: seq<Hash>, k: nat): seq<Hash> {
    if k == 0 then [] else Repeat(words, k - 1) + words
  }

  /** `c` added to itself `k` times. */
  function Times(k: nat, c: real): real {
    if k == 0 then 0.0 else Times(k - 1, c) + c
  }

  lemma {:induction false} TimesIsProduct(k: nat, c: real)
    ensures Times(k, c) == k as real * c
  {
    if k == 0 {
    } else {
      TimesIsProduct(k - 1, c);
    }
  }

  lemma {:induction false} CoordinateRepeat(words: seq<Hash>, k: nat, j: nat)
    ensures Coordinate(Repeat(words, k), |Repeat(words, k)|, j) == Times(k, Coordinate(words, |words|, j))
  {
    if k == 0 {
    } else {
      hide Coordinate;
      CoordinateRepeat(words, k - 1, j);
      RawConcat(Repeat(words, k - 1), words, j);
    }
  }

  /** Repeating the word list k times scales the raw embedding by k. */
  lemma RawRepeat(words: seq<Hash>, k: nat)
    ensures RawEmbedding(Repeat(words, k)) == Scale(k as real, RawEmbedding(words))
  {
    hide Coordinate, Repeat, Times;
    forall j | 0 <= j < DIM
      ensures RawEmbedding(Repeat(words, k))[j] == Scale(k as real, RawEmbedding(words))[j]
    {
      CoordinateRepeat(words, k, j);
      TimesIsProduct(k, Coordinate(words, |words|, j));
    }
  }

  // ----- Normalisation -----

  lemma RootUnique(r: real, s: real)
    requires r >= 0.0 && s >= 0.0 && r * r == s * s
    ensures r == s
  {
    SquareOrder(r, s);
    SquareOrder(s, r);
  }

  lemma RootScale(root: real -> real, k: real, x: real, y: real)
    requires ExactRoot(root) && k > 0.0 && x >= 0.0 && y == k * k * x
    ensures root(y) == k * root(x)
  {
    var r := root(x);
    assert r * r == x;
    MulPositive(k, k);
    MulNonNegative(k * k, x);
    MulNonNegative(k, r);
    assert (k * r) * (k * r) == k * k * x;
    RootUnique(root(y), k * r);
  }

  lemma RootPositive(root: real -> real, x: real)
    requires ExactRoot(root) && x >= 0.0
    ensures root(x) > 0.0 <==> x > 0.0
    ensures root(x) >= 0.0
  {
    RootSign(root(x), x);
  }

  lemma RootSign(r: real, x: real)
    requires r >= 0.0 && r * r == x
    ensures r > 0.0 <==> x > 0.0
  {
    if r > 0.0 {
      SquareStrictOrder(0.0, r);
    } else {
      assert r * r == 0.0 * r;
    }
  }

  lemma ScaleTwice(k: real, n: real, m: real, a: Vec)
    requires k > 0.0 && n > 0.0 && m == k * n
    ensures m > 0.0
    ensures Scale(1.0 / m, Scale(k, a)) == Scale(1.0 / n, a)
  {
    MulPositive(k, n);
    var p, q := 1.0 / m, 1.0 / n;
    assert p * k == q by {
      assert p * m == 1.0;
      assert q * n == 1.0;
      assert (p * k) * n == p * m;
      assert p * k == (p * k) * (q * n) == q * ((p * k) * n);
    }
    forall i | 0 <= i < |a| ensures Scale(p, Scale(k, a))[i] == Scale(q, a)[i] {
      assert p * (k * a[i]) == (p * k) * a[i];
    }
  }

  lemma ScaledNorm(root: real -> real, k: real, raw: Vec)
    requires ExactRoot(root) && k > 0.0 && Energy(raw) > 0.0
    ensures root(Energy(Scale(k, raw))) == k * root(Energy(raw))
  {
    hide Dot, Scale;
    DotScale(k, k, raw, raw, |raw|);
    RootScale(root, k, Energy(raw), Energy(Scale(k, raw)));
  }

  /** Parallel raw vectors have the same embedding. */
  lemma UnitOfScaled(root: real -> real, k: real, raw: Vec)
    requires ExactRoot(root) && k > 0.0 && Energy(raw) > 0.0
    ensures UnitOf(root, Scale(k, raw)) == UnitOf(root, raw)
  {
    hide Dot, Scale;
    ScaledNorm(root, k, raw);
    RootPositive(root, Energy(raw));
    ScaleTwice(k, root(Energy(raw)), root(Energy(Scale(k, raw))), raw);
  }

  lemma UnitEnergy(root: real -> real, raw: Vec)
    requires ExactRoot(root) && Energy(raw) > 0.0
    ensures Energy(UnitOf(root, raw)) == 1.0
  {
    hide Dot;
    var x := Energy(raw);
    var n := root(x);
    RootPositive(root, x);
    var c := 1.0 / n;
    DotScale(c, c, raw, raw, |raw|);
    assert c * n == 1.0;
    assert c * c * x == (c * n) * (c * n);
  }

  /** Normalisation divides every coordinate by the norm and leaves a zero vector alone. */
  lemma UnitCoordinate(root: real -> real, raw: Vec, i: nat)
    requires ExactRoot(root) && i < |raw|
    ensures Energy(raw) == 0.0 ==> UnitOf(root, raw) == raw
    ensures Energy(raw) > 0.0 ==> UnitOf(root, raw)[i] * root(Energy(raw)) == raw[i]
  {
    hide Dot;
    ZeroEnergy(raw);
    RootPositive(root, Energy(raw));
    if Energy(raw) > 0.0 {
      var norm, x := root(Energy(raw)), raw[i];
      var c := 1.0 / norm;
      assert c * norm == 1.0;
      assert UnitOf(root, raw)[i] == c * x;
      assert c * x * norm == (c * norm) * x;
    }
  }

  lemma SelfSimilarityOne(root: real -> real, v: Vec)
    requires ExactRoot(root) && Energy(v) == 1.0
    ensures Similarity(root, v, v) == 1.0
  {
    RootUnique(root(1.0), 1.0);
  }

  lemma {:induction false} ShareBounds(words: seq<Hash>, n: nat, j: nat)
    requires n <= |words|
    ensures Coordinate(words, n, j) >= 0.0
    ensures n > 0 && Low(words[0]) == j ==> Coordinate(words, n, j) >= 1.0
  {
    if n == 0 {
    } else {
      ShareBounds(words, n - 1, j);
    }
  }

  lemma RawNonNegative(words: seq<Hash>)
    ensures NonNegative(RawEmbedding(words))
    ensures words != [] ==> Energy(RawEmbedding(words)) > 0.0
  {
    var raw := RawEmbedding(words);
    forall j | 0 <= j < DIM ensures raw[j] >= 0.0 {
      ShareBounds(words, |words|, j);
    }
    ZeroEnergy(raw);
    if words != [] {
      ShareBounds(words, |words|, Low(words[0]));
      assert raw[Low(words[0])] != 0.0;
    }
  }

  lemma EmbeddingNonNegative(root: real -> real, words: seq<Hash>)
    ensures NonNegative(EmbeddingOf(root, words))
  {
    RawNonNegative(words);
    var raw := RawEmbedding(words);
    var norm := root(Energy(raw));
    if norm > 0.0 {
      DivOrder(1.0, 0.0, norm);
      ScaleNonNegative(1.0 / norm, raw);
    }
  }

  lemma ScaleNonNegative(c: real, a: Vec)
    requires c >= 0.0 && NonNegative(a)
    ensures NonNegative(Scale(c, a))
  {
    forall j | 0 <= j < |a| ensures Scale(c, a)[j] >= 0.0 {
      MulNonNegative(c, a[j]);
    }
  }

  /** `b` says the same as `a`: its words are those of `a`, repeated k >= 1 times, in any order. */
  ghost predicate Rearranges(a: seq<Hash>, b: seq<Hash>, k: nat) {
    k >= 1 && multiset(b) == multiset(Repeat(a, k))
  }

  /** Texts that are reorderings or repetitions of each other have the same embedding,
      and so cosine 1, as soon as they hold a word. */
  lemma RearrangedTextsCoincide(root: real -> real, a: seq<Hash>, b: seq<Hash>, k: nat)
    requires ExactRoot(root) && a != [] && Rearranges(a, b, k)
    ensures EmbeddingOf(root, a) == EmbeddingOf(root, b)
    ensures Energy(EmbeddingOf(root, a)) == 1.0
    ensures Similarity(root, EmbeddingOf(root, a), EmbeddingOf(root, b)) == 1.0
  {
    hide Dot, Similarity;
    RawReorder(b, Repeat(a, k));
    RawRepeat(a, k);
    RawNonNegative(a);
    UnitOfScaled(root, k as real, RawEmbedding(a));
    UnitEnergy(root, RawEmbedding(a));
    SelfSimilarityOne(root, EmbeddingOf(root, a));
  }

  /** Scores of non-negative vectors lie in [0, 1]. */
  lemma SimilarityBounds(root: real -> real, a: Vec, b: Vec)
    requires ExactRoot(root) && |a| == |b| && NonNegative(a) && NonNegative(b)
    ensures 0.0 <= Similarity(root, a, b) <= 1.0
  {
    hide Dot;
    ZeroEnergy(a);
    ZeroEnergy(b);
    CauchySchwarz(a, b, |a|);
    DotNonNegative(a, b, |a|);
    var d, p, q, s, t := Dot(a, b, |a|), Energy(a), Energy(b), root(Energy(a)), root(Energy(b));
    assert s >= 0.0 && s * s == p && t >= 0.0 && t * t == q;
    hide ExactRoot, Energy, Ratio;
    RatioInUnit(d, p, q, s, t);
  }

  lemma RatioInUnit(d: real, p: real, q: real, s: real, t: real)
    requires d >= 0.0 && s >= 0.0 && t >= 0.0 && s * s == p && t * t == q && d * d <= p * q
    ensures 0.0 <= Ratio(d, s, t) <= 1.0
  {
    if s > 0.0 && t > 0.0 {
      var m := s * t;
      MulPositive(s, t);
      assert m * m == p * q;
      SquareOrder(d, m);
      DivOrder(d, 1.0, m);
      DivOrder(d, 0.0, m);
    }
  }

  lemma RatioSquared(d: real, s: real, t: real, p: real, q: real)
    requires s >= 0.0 && t >= 0.0 && s * s == p && t * t == q && p > 0.0 && q > 0.0
    ensures var c := Ratio(d, s, t); c * c * (p * q) == d * d && (c > 0.0 <==> d > 0.0) && (c < 0.0 <==> d < 0.0)
  {
    RootSign(s, p);
    RootSign(t, q);
    MulPositive(s, t);
    var m := s * t;
    var c := d / m;
    assert c * m == d;
    assert p * q == m * m;
    DivOrder(d, 0.0, m);
  }

  /** The score exactly, without a root: its square times both energies is the squared inner product, with the sign
      of the inner product; vectors without energy score 0. */
  lemma SimilaritySquared(root: real -> real, a: Vec, b: Vec)
    requires ExactRoot(root) && |a| == |b|
    ensures Energy(a) == 0.0 || Energy(b) == 0.0 ==> Similarity(root, a, b) == 0.0
    ensures Energy(a) > 0.0 && Energy(b) > 0.0 ==>
      var c, d := Similarity(root, a, b), Dot(a, b, |a|);
      c * c * (Energy(a) * Energy(b)) == d * d && (c > 0.0 <==> d > 0.0) && (c < 0.0 <==> d < 0.0)
  {
    hide Dot;
    ZeroEnergy(a);
    ZeroEnergy(b);
    RootPositive(root, Energy(a));
    RootPositive(root, Energy(b));
    if Energy(a) > 0.0 && Energy(b) > 0.0 {
      var d, p, q, s, t := Dot(a, b, |a|), Energy(a), Energy(b), root(Energy(a)), root(Energy(b));
      assert s * s == p && t * t == q;
      hide ExactRoot, Energy, Ratio;
      RatioSquared(d, s, t, p, q);
    }
  }

  /** Reaching a threshold is a comparison of squares: cos >= t exactly when dot^2 >= t^2 |a|^2 |b|^2. */
  lemma ReachesIffSquares(root: real -> real, a: Vec, b: Vec, t: real)
    requires ExactRoot(root) && |a| == |b| && NonNegative(a) && NonNegative(b) && t > 0.0
    requires Energy(a) > 0.0 && Energy(b) > 0.0
    ensures Similarity(root, a, b) >= t <==> Dot(a, b, |a|) * Dot(a, b, |a|) >= t * t * (Energy(a) * Energy(b))
  {
    SimilaritySquared(root, a, b);
    SimilarityBounds(root, a, b);
    MulPositive(Energy(a), Energy(b));
    hide Similarity, Dot, Energy;
    CompareSquares(Similarity(root, a, b), t, Energy(a) * Energy(b), Dot(a, b, |a|) * Dot(a, b, |a|));
  }

  lemma CompareSquares(c: real, t: real, m: real, w: real)
    requires c >= 0.0 && t > 0.0 && m > 0.0 && c * c * m == w
    ensures c >= t <==> w >= t * t * m
  {
    if c >= t {
      MulMonotone(t, t, c, c);
      MulMonotone(t * t, m, c * c, m);
    } else {
      SquareStrictOrder(c, t);
      MulPositive(t * t - c * c, m);
      assert (t * t - c * c) * m == t * t * m - c * c * m;
    }
  }

  lemma SimilaritySymmetric(root: real -> real, a: Vec, b: Vec)
    requires |a| == |b|
    ensures Similarity(root, a, b) == Similarity(root, b, a)
  {
    DotSymmetric(a, b, |a|);
    hide Dot;
    var s, t := root(Energy(a)), root(Energy(b));
    assert s * t == t * s;
  }

  /** `compute_embedding`: two additions per word, then division by the norm, in place. */
  method ComputeEmbedding(root: real -> real, words: seq<Hash>) returns (embedding: Vec)
    ensures embedding == EmbeddingOf(root, words)
  {
    var e := new real[DIM](_ => 0.0);
    for n := 0 to |words|
      invariant forall j :: 0 <= j < DIM ==> e[j] == Coordinate(words, n, j)
    {
      var h := words[n];
      e[h % DIM] := e[h % DIM] + 1.0;
      e[(h / 0x1_0000_0000) % DIM] := e[(h / 0x1_0000_0000) % DIM] + 0.5;
    }
    assert e[..] == RawEmbedding(words);
    hide RawEmbedding, Coordinate, UnitOf;
    DivideByNorm(root, e);
    return e[..];
  }

  /** The second half of `compute_embedding`: division by the norm unless it is 0. */
  method DivideByNorm(root: real -> real, e: array<real>)
    modifies e
    ensures e[..] == UnitOf(root, old(e[..]))
  {
    hide Dot;
    ghost var raw := e[..];
    var norm := root(Energy(e[..]));
    if norm > 0.0 {
      ghost var unit := Scale(1.0 / norm, raw);
      assert unit == UnitOf(root, raw);
      hide Scale, UnitOf;
      for i := 0 to e.Length
        invariant forall j :: 0 <= j < i ==> e[j] == unit[j]
        invariant forall j :: i <= j < e.Length ==> e[j] == raw[j]
      {
        DivideIsScale(raw, norm, i);
        e[i] := e[i] / norm;
      }
      assert e[..] == unit;
    }
  }
}
