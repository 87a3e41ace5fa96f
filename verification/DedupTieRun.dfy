/** Runs of `deduplicate_report` after which the matches of a text need not be a prefix of what
    `find_duplicates` returns: two stored texts, well apart from each other, equally near to a third. */
module DedupTieRun {
  import opened Common
  import opened RealArith
  import opened Vectors
  import opened Embedding
  import opened Dedup
  import opened DedupTies

  /** Two words that touch different coordinates, and equally many. */
  predicate Apart(u: Hash, v: Hash) {
    && Low(u) != Low(v) && Low(u) != High(v) && High(u) != Low(v) && High(u) != High(v)
    && (Low(u) == High(u) <==> Low(v) == High(v))
  }

  /** The one word `x` times, the other `y` times. */
  function Text(u: Hash, v: Hash, x: nat, y: nat): seq<Hash> {
    Repeat([u], x) + Repeat([v], y)
  }

  function Raw(u: Hash, v: Hash, x: nat, y: nat): (r: Vec)
    ensures |r| == DIM
  {
    RawEmbedding(Text(u, v, x, y))
  }

  lemma RawAt(u: Hash, v: Hash, x: nat, y: nat, j: nat)
    requires j < DIM
    ensures Raw(u, v, x, y)[j] == x as real * Share(u, j) + y as real * Share(v, j)
  {
    RawConcat(Repeat([u], x), Repeat([v], y), j);
    CoordinateRepeat([u], x, j);
    CoordinateRepeat([v], y, j);
    TimesIsProduct(x, Share(u, j));
    TimesIsProduct(y, Share(v, j));
    assert Coordinate([u], 1, j) == Coordinate([u], 0, j) + Share(u, j);
    assert Coordinate([v], 1, j) == Coordinate([v], 0, j) + Share(v, j);
  }

  /** Energy of a single word on the first `n` coordinates. */
  function WordEnergy(h: Hash, n: nat): real {
    if n == 0 then 0.0 else WordEnergy(h, n - 1) + Share(h, n - 1) * Share(h, n - 1)
  }

  lemma {:induction false} WordEnergyIs(h: Hash, n: nat)
    ensures WordEnergy(h, n) ==
      if Low(h) == High(h) then (if Low(h) < n then 2.25 else 0.0)
      else (if Low(h) < n then 1.0 else 0.0) + if High(h) < n then 0.25 else 0.0
  {
    if n == 0 {
    } else {
      WordEnergyIs(h, n - 1);
    }
  }

  function Mix(x: real, p: real, a: real, y: real, q: real, b: real): real {
    x * p * a + y * q * b
  }

  lemma MixStep(x: real, p: real, a: real, y: real, q: real, b: real, s: real, t: real, i: real, j: real,
                c: real, d: real)
    requires (s == 0.0 || t == 0.0) && i == x * s + y * t && j == p * s + q * t && c == a + s * s && d == b + t * t
    ensures Mix(x, p, a, y, q, b) + i * j == Mix(x, p, c, y, q, d)
  {
    var g, h := x * p, y * q;
    if s == 0.0 {
      assert i == y * t && j == q * t;
      assert i * j == h * (t * t);
      assert h * (b + t * t) == h * b + h * (t * t);
    } else {
      assert i == x * s && j == p * s;
      assert i * j == g * (s * s);
      assert g * (a + s * s) == g * a + g * (s * s);
    }
  }

  lemma WordEnergyStep(h: Hash, n: nat)
    requires n > 0
    ensures WordEnergy(h, n) == WordEnergy(h, n - 1) + Share(h, n - 1) * Share(h, n - 1)
  {
  }

  lemma SharesApart(u: Hash, v: Hash, j: nat)
    requires Apart(u, v)
    ensures Share(u, j) == 0.0 || Share(v, j) == 0.0
  {
  }

  /** One more coordinate of the inner product of two texts. */
  lemma TextDotStep(u: Hash, v: Hash, x: nat, y: nat, p: nat, q: nat, n: nat)
    requires Apart(u, v) && 0 < n <= DIM
    ensures Mix(x as real, p as real, WordEnergy(u, n - 1), y as real, q as real, WordEnergy(v, n - 1))
          + Raw(u, v, x, y)[n - 1] * Raw(u, v, p, q)[n - 1]
         == Mix(x as real, p as real, WordEnergy(u, n), y as real, q as real, WordEnergy(v, n))
  {
    hide Raw, Mix, Share, WordEnergy;
    RawAt(u, v, x, y, n - 1);
    RawAt(u, v, p, q, n - 1);
    SharesApart(u, v, n - 1);
    WordEnergyStep(u, n);
    WordEnergyStep(v, n);
    MixStep(x as real, p as real, WordEnergy(u, n - 1), y as real, q as real, WordEnergy(v, n - 1),
      Share(u, n - 1), Share(v, n - 1), Raw(u, v, x, y)[n - 1], Raw(u, v, p, q)[n - 1],
      WordEnergy(u, n), WordEnergy(v, n));
  }

  lemma {:induction false} TextDotTo(u: Hash, v: Hash, x: nat, y: nat, p: nat, q: nat, n: nat)
    requires Apart(u, v) && n <= DIM
    ensures Dot(Raw(u, v, x, y), Raw(u, v, p, q), n)
         == Mix(x as real, p as real, WordEnergy(u, n), y as real, q as real, WordEnergy(v, n))
  {
    if n == 0 {
    } else {
      hide Raw, Dot, Mix, WordEnergy;
      TextDotTo(u, v, x, y, p, q, n - 1);
      DotStep(Raw(u, v, x, y), Raw(u, v, p, q), n);
      TextDotStep(u, v, x, y, p, q, n);
    }
  }

  /** The inner product of two such texts, up to the energy of a word. */
  lemma TextDot(u: Hash, v: Hash, x: nat, y: nat, p: nat, q: nat)
    requires Apart(u, v)
    ensures WordEnergy(u, DIM) >= 1.25
    ensures Dot(Raw(u, v, x, y), Raw(u, v, p, q), DIM) == (x * p + y * q) as real * WordEnergy(u, DIM)
  {
    hide Raw, Dot;
    TextDotTo(u, v, x, y, p, q, DIM);
    WordEnergyIs(u, DIM);
    WordEnergyIs(v, DIM);
    var a := WordEnergy(u, DIM);
    assert WordEnergy(v, DIM) == a;
    hide WordEnergy;
    assert (x * p + y * q) as real == x as real * p as real + y as real * q as real;
  }

  /** The similarity of two embeddings is the product of the raw vectors over both norms. */
  lemma UnitSimilarity(root: real -> real, a: Vec, b: Vec)
    requires ExactRoot(root) && |a| == |b| && Energy(a) > 0.0 && Energy(b) > 0.0
    ensures root(Energy(a)) > 0.0 && root(Energy(b)) > 0.0
    ensures Similarity(root, UnitOf(root, a), UnitOf(root, b))
         == (1.0 / root(Energy(a))) * (1.0 / root(Energy(b))) * Dot(a, b, |a|)
  {
    hide Dot, Scale;
    RootPositive(root, Energy(a));
    RootPositive(root, Energy(b));
    UnitEnergy(root, a);
    UnitEnergy(root, b);
    RootUnique(root(1.0), 1.0);
    DotScale(1.0 / root(Energy(a)), 1.0 / root(Energy(b)), a, b, |a|);
  }

  lemma TextSimilarity(root: real -> real, u: Hash, v: Hash, x: nat, y: nat, p: nat, q: nat, e: real, f: real)
    requires ExactRoot(root) && Apart(u, v) && e > 0.0 && f > 0.0
    requires e == (x * x + y * y) as real * WordEnergy(u, DIM) && f == (p * p + q * q) as real * WordEnergy(u, DIM)
    ensures root(e) > 0.0 && root(f) > 0.0
    ensures Similarity(root, EmbeddingOf(root, Text(u, v, x, y)), EmbeddingOf(root, Text(u, v, p, q)))
         == (1.0 / root(e)) * (1.0 / root(f)) * ((x * p + y * q) as real * WordEnergy(u, DIM))
  {
    hide RawEmbedding, Text, UnitOf, Similarity, Dot, WordEnergy;
    TextDot(u, v, x, y, x, y);
    TextDot(u, v, p, q, p, q);
    TextDot(u, v, x, y, p, q);
    UnitSimilarity(root, Raw(u, v, x, y), Raw(u, v, p, q));
  }

  /** The three scores: the stored texts score 0.6, and both score sqrt(0.8) against the third text. */
  lemma ThreeScores(root: real -> real, u: Hash, v: Hash)
    requires ExactRoot(root) && Apart(u, v)
    ensures var a, b, q :=
        EmbeddingOf(root, Text(u, v, 3, 1)), EmbeddingOf(root, Text(u, v, 1, 3)), EmbeddingOf(root, Text(u, v, 1, 1));
      && Similarity(root, b, a) < THRESHOLD
      && Similarity(root, q, a) == Similarity(root, q, b) >= THRESHOLD
  {
    hide EmbeddingOf, Text, Similarity, WordEnergy;
    TextDot(u, v, 1, 1, 1, 1);
    var a := WordEnergy(u, DIM);
    TextSimilarity(root, u, v, 1, 3, 3, 1, 10.0 * a, 10.0 * a);
    TextSimilarity(root, u, v, 1, 1, 3, 1, 2.0 * a, 10.0 * a);
    TextSimilarity(root, u, v, 1, 1, 1, 3, 2.0 * a, 10.0 * a);
    var m, n := root(2.0 * a), root(10.0 * a);
    assert m * m == 2.0 * a && n * n == 10.0 * a;
    hide ExactRoot;
    ScoresFrom(a, m, n);
  }

  lemma ScoresFrom(a: real, m: real, n: real)
    requires a > 0.0 && m > 0.0 && n > 0.0 && m * m == 2.0 * a && n * n == 10.0 * a
    ensures (1.0 / n) * (1.0 / n) * (6.0 * a) == 0.6
    ensures (1.0 / m) * (1.0 / n) * (4.0 * a) >= 0.85
  {
    var p, r := 1.0 / m, 1.0 / n;
    assert p * m == 1.0 && r * n == 1.0;
    DivOrder(1.0, 0.0, m);
    DivOrder(1.0, 0.0, n);
    var pp, rr := p * p * a, r * r * a;
    assert rr == 0.1 by {
      assert 10.0 * rr == r * r * (n * n) == (r * n) * (r * n);
    }
    assert pp == 0.5 by {
      assert 2.0 * pp == p * p * (m * m) == (p * m) * (p * m);
    }
    assert r * r * (6.0 * a) == 6.0 * rr;
    MulPositive(p, r);
    MulPositive(p * r, a);
    var s := p * r * (4.0 * a);
    assert s == 4.0 * (p * r * a);
    assert s * s == 16.0 * (pp * rr);
    SquareOrder(0.85, s);
  }

  function Stores(root: real -> real, u: Hash, v: Hash): seq<Call> {
    var a, b := EmbeddingOf(root, Text(u, v, 3, 1)), EmbeddingOf(root, Text(u, v, 1, 3));
    [Call("a", Text(u, v, 3, 1), Hits([]), Done),
     Call("b", Text(u, v, 1, 3), Hits([Hit("a", Similarity(root, b, a))]), Done)]
  }

  lemma TwoCalls(root: real -> real, first: Call, second: Call)
    ensures var calls, one := [first, second], DedupIndex(root, map[], first);
      && Exec(root, map[], calls) == DedupIndex(root, one, second)
      && (Answered(root, map[], first) && Answered(root, one, second) ==> RunAnswered(root, map[], calls))
  {
    hide DedupIndex, Answered;
    var calls := [first, second];
    assert calls[..0] == [] && calls[..1] == [first] && calls[..1][..0] == [];
    assert Exec(root, map[], calls[..1]) == DedupIndex(root, Exec(root, map[], []), first);
  }

  lemma SingleAnswer(root: real -> real, e: Embedded, query: Embedded)
    ensures TopHits(root, map["a" := e], query, 10, [Hit("a", Similarity(root, query, e))])
  {
    hide Similarity;
    var hits := [Hit("a", Similarity(root, query, e))];
    assert hits[0].id == "a";
    assert Lists(hits, "a");
    assert |map["a" := e]| == 1;
  }

  lemma StoresRun(root: real -> real, u: Hash, v: Hash)
    requires ExactRoot(root) && Apart(u, v)
    ensures RunAnswered(root, map[], Stores(root, u, v))
    ensures Exec(root, map[], Stores(root, u, v))
         == map["a" := EmbeddingOf(root, Text(u, v, 3, 1)), "b" := EmbeddingOf(root, Text(u, v, 1, 3))]
  {
    ThreeScores(root, u, v);
    hide EmbeddingOf, Text, Similarity, Exec, RunAnswered;
    var calls, e := Stores(root, u, v), EmbeddingOf(root, Text(u, v, 3, 1));
    TwoCalls(root, calls[0], calls[1]);
    SingleAnswer(root, e, EmbeddingOf(root, Text(u, v, 1, 3)));
    assert Answered(root, map[], calls[0]);
    hide TopHits;
    assert DedupIndex(root, map[], calls[0]) == map["a" := e];
    assert Answered(root, map["a" := e], calls[1]);
    assert AtLeast(calls[1].search.hits, THRESHOLD) == [];
  }

  /** So the matches are not always a prefix: for any two words apart, after storing "u u u v" and "u v v v" by two
      ordinary calls, answers for "u v" disagree on the order of its two duplicates. */
  lemma TieReachable(root: real -> real, u: Hash, v: Hash)
    requires ExactRoot(root) && Apart(u, v)
    ensures RunAnswered(root, map[], Stores(root, u, v))
    ensures !AlwaysPrefix(root, Exec(root, map[], Stores(root, u, v)), Text(u, v, 1, 1))
  {
    hide Similarity, EmbeddingOf, Text, TopHits, AlwaysPrefix, Exec, RunAnswered;
    StoresRun(root, u, v);
    ThreeScores(root, u, v);
    var index, q := Exec(root, map[], Stores(root, u, v)), EmbeddingOf(root, Text(u, v, 1, 1));
    PrefixIffTiesRankLow(root, index, Text(u, v, 1, 1));
    assert Tied(root, index, q, "a", "b");
    assert Above(root, index, q, Similarity(root, q, index["a"])) == {};
  }
}
