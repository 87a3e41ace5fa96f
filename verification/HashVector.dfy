/** `hashToVector`: byte sums over 128 buckets, scaled to unit length with the ten-round root. */
module HashVector {
  import opened RealArith
  import opened Vectors
  import opened NewtonRoot
  import opened CosineScore
  import opened SelfSimilarity

  type Byte = b: int | 0 <= b < 256

  const BUCKETS: nat := 128

  /** Sum of the bytes among the first `n` whose position falls into bucket `j`. */
  function BucketSum(input: seq<Byte>, n: nat, j: nat): nat
    requires n <= |input|
  {
    if n == 0 then 0
    else BucketSum(input, n - 1, j) + if (n - 1) % BUCKETS == j then input[n - 1] else 0
  }

  function RawVector(input: seq<Byte>): (v: Vec)
    ensures |v| == BUCKETS
  {
    seq(BUCKETS, j requires 0 <= j < BUCKETS => BucketSum(input, |input|, j) as real / 255.0)
  }

  /** Sum of the squared byte sums of the first `m` buckets. */
  function WeightTo(input: seq<Byte>, m: nat): nat {
    if m == 0 then 0
    else WeightTo(input, m - 1) + BucketSum(input, |input|, m - 1) * BucketSum(input, |input|, m - 1)
  }

  function Weight(input: seq<Byte>): nat {
    WeightTo(input, BUCKETS)
  }

  function HashOf(input: seq<Byte>): (v: Vec)
    ensures |v| == BUCKETS
  {
    Normalised(RawVector(input))
  }

  /** Division by the ten-round root of the energy; a zero vector is left alone. */
  function Normalised(raw: Vec): (v: Vec)
    ensures |v| == |raw|
  {
    ZeroEnergy(raw);
    if Energy(raw) == 0.0 then raw else Scale(1.0 / Root(Energy(raw)), raw)
  }

  lemma {:induction false} RawEnergyTo(input: seq<Byte>, m: nat)
    requires m <= BUCKETS
    ensures Dot(RawVector(input), RawVector(input), m) == WeightTo(input, m) as real / 65025.0
  {
    if m == 0 {
    } else {
      hide BucketSum;
      RawEnergyTo(input, m - 1);
      SquareOfByteSum(BucketSum(input, |input|, m - 1));
    }
  }

  lemma SquareOfByteSum(b: nat)
    ensures (b as real / 255.0) * (b as real / 255.0) == (b * b) as real / 65025.0
  {
  }

  /** Normalising leaves energy 1/(1 + e), where e is the relative error of the root used. */
  lemma NormalisedEnergy(raw: Vec)
    requires Energy(raw) > 0.0
    ensures Energy(Scale(1.0 / Root(Energy(raw)), raw)) == Leftover(NormError(Energy(raw)))
  {
    hide Newton, RelError;
    var x := Energy(raw);
    var z := Root(x);
    var c := 1.0 / z;
    NewtonError(x, ROUNDS);
    DotScale(c, c, raw, raw, |raw|);
    ScaledEnergy(x, z, c, NormError(x));
  }

  lemma ScaledEnergy(x: real, z: real, c: real, e: real)
    requires x > 0.0 && z > 0.0 && c == 1.0 / z && e >= 0.0 && z * z == x * (1.0 + e)
    ensures c * c * x == Leftover(e)
  {
    assert c * z == 1.0;
    var y := Leftover(e);
    assert y * (1.0 + e) == 1.0;
    assert c * c * x == c * c * x * (y * (1.0 + e)) == (c * z) * (c * z) * y;
  }

  /** The self-score of a report vector is a function of its weight alone. */
  lemma SelfScoreOfReport(input: seq<Byte>)
    requires Weight(input) >= 1
    ensures EnergyOf(Weight(input)) > 0.0
    ensures Energy(HashOf(input)) > 0.0
    ensures Cosine(HashOf(input), HashOf(input)) == SelfSim(EnergyOf(Weight(input)))
  {
    hide RelError, Root, Dot;
    var raw := RawVector(input);
    RawEnergyTo(input, BUCKETS);
    NormalisedEnergy(raw);
    SelfScore(HashOf(input));
  }

  /** A text of only zero bytes (or none) hashes to the zero vector, which scores 0 against everything. */
  lemma ZeroReport(input: seq<Byte>, other: Vec)
    requires Weight(input) == 0
    ensures Cosine(HashOf(input), other) == 0.0 && Cosine(other, HashOf(input)) == 0.0
  {
    hide Root;
    RawEnergyTo(input, BUCKETS);
  }

  /** A re-submitted text passes the search threshold against its own stored vector
      exactly when its weight is between 1 and MAX_WEIGHT. */
  lemma ReportMatchesItself(input: seq<Byte>)
    ensures Cosine(HashOf(input), HashOf(input)) > 0.7 <==> 1 <= Weight(input) <= MAX_WEIGHT
  {
    hide RelError, Root, Dot;
    if Weight(input) == 0 {
      ZeroReport(input, HashOf(input));
    } else {
      SelfScoreOfReport(input);
      SelfScoreThreshold(Weight(input));
    }
  }

  // ----- What the vector says about the text -----

  /** Every byte counts in the bucket of its position and nowhere else. */
  lemma {:induction false} ByteMovesItsBucket(input: seq<Byte>, i: nat, b: Byte, n: nat, j: nat)
    requires i < n <= |input| && j < 128
    ensures BucketSum(input[i := b], n, j)
         == BucketSum(input, n, j) + if i % 128 == j then b as int - input[i] as int else 0
  {
    if n == i + 1 {
      SamePrefix(input, input[i := b], i, j);
    } else {
      ByteMovesItsBucket(input, i, b, n - 1, j);
    }
  }

  lemma {:induction false} SamePrefix(a: seq<Byte>, b: seq<Byte>, n: nat, j: nat)
    requires n <= |a| && n <= |b| && a[..n] == b[..n]
    ensures BucketSum(a, n, j) == BucketSum(b, n, j)
  {
    if n == 0 {
    } else {
      assert a[..n - 1] == a[..n][..n - 1] && b[..n - 1] == b[..n][..n - 1];
      assert a[n - 1] == a[..n][n - 1] && b[n - 1] == b[..n][n - 1];
      SamePrefix(a, b, n - 1, j);
    }
  }

  /** Each coordinate is its bucket's share of the norm, never negative; a text of weight 0 gives the zero vector. */
  lemma HashCoordinate(input: seq<Byte>, j: nat)
    requires j < 128
    ensures HashOf(input)[j] >= 0.0
    ensures Weight(input) == 0 ==> HashOf(input)[j] == 0.0
    ensures Weight(input) >= 1 ==>
      && EnergyOf(Weight(input)) > 0.0
      && HashOf(input)[j] * Root(EnergyOf(Weight(input))) == BucketSum(input, |input|, j) as real / 255.0
  {
    hide BucketSum, Energy, Root, Weight, RawVector, Normalised;
    RawFacts(input, j);
    NormalisedAt(RawVector(input), j);
  }

  lemma RawFacts(input: seq<Byte>, j: nat)
    requires j < 128
    ensures Energy(RawVector(input)) == EnergyOf(Weight(input))
    ensures RawVector(input)[j] == BucketSum(input, |input|, j) as real / 255.0 >= 0.0
  {
    hide BucketSum, Dot, WeightTo;
    RawEnergyTo(input, BUCKETS);
  }

  lemma NormalisedAt(raw: Vec, j: nat)
    requires j < |raw| && raw[j] >= 0.0
    ensures Energy(raw) >= 0.0 && Normalised(raw)[j] >= 0.0
    ensures Energy(raw) == 0.0 ==> Normalised(raw)[j] == 0.0
    ensures Energy(raw) > 0.0 ==> Normalised(raw)[j] * Root(Energy(raw)) == raw[j]
  {
    hide Root, Dot;
    ZeroEnergy(raw);
    if Energy(raw) > 0.0 {
      var norm := Root(Energy(raw));
      assert Normalised(raw)[j] == 1.0 / norm * raw[j];
      hide Normalised;
      CoordinateShare(raw[j], norm);
    }
  }

  lemma CoordinateShare(x: real, norm: real)
    requires norm > 0.0 && x >= 0.0
    ensures 1.0 / norm * x >= 0.0 && 1.0 / norm * x * norm == x
  {
    var c := 1.0 / norm;
    assert c * norm == 1.0;
    DivOrder(1.0, 0.0, norm);
    MulNonNegative(c, x);
    assert c * x * norm == (c * norm) * x;
  }

  // ----- What the weight means for the text -----

  /** How many of the first `n` positions fall into bucket `j`. */
  function Rounds(n: nat, j: nat): nat
    requires j < BUCKETS
  {
    (n + 127 - j) / BUCKETS
  }

  lemma RoundsStep(n: nat, j: nat)
    requires n > 0 && j < BUCKETS
    ensures Rounds(n, j) == Rounds(n - 1, j) + if (n - 1) % BUCKETS == j then 1 else 0
  {
  }

  lemma {:induction false} BucketSumAtMost(input: seq<Byte>, n: nat, j: nat)
    requires n <= |input| && j < BUCKETS
    ensures BucketSum(input, n, j) <= 255 * Rounds(n, j)
  {
    if n == 0 {
    } else {
      hide Rounds;
      BucketSumAtMost(input, n - 1, j);
      RoundsStep(n, j);
    }
  }

  lemma {:induction false} WeightAtMost(input: seq<Byte>, m: nat, c: nat, square: nat)
    requires m <= BUCKETS && (|input| + 127) / BUCKETS <= c && square == (255 * c) * (255 * c)
    ensures WeightTo(input, m) <= m * square
  {
    if m == 0 {
    } else {
      hide BucketSum;
      WeightAtMost(input, m - 1, c, square);
      BucketAtMost(input, m - 1, c);
      NatSquareMonotone(BucketSum(input, |input|, m - 1), 255 * c);
      assert m * square == (m - 1) * square + square;
    }
  }

  lemma BucketAtMost(input: seq<Byte>, j: nat, c: nat)
    requires j < BUCKETS && (|input| + 127) / BUCKETS <= c
    ensures BucketSum(input, |input|, j) <= 255 * c
  {
    BucketSumAtMost(input, |input|, j);
  }

  lemma NatSquareMonotone(a: nat, b: nat)
    requires a <= b
    ensures a * a <= b * b
  {
    assert b * b - a * a == (b - a) * (b + a);
  }

  lemma {:induction false} BucketSumGrows(input: seq<Byte>, i: nat, n: nat)
    requires i < n <= |input|
    ensures BucketSum(input, n, i % BUCKETS) >= input[i]
  {
    if n == i + 1 {
    } else {
      BucketSumGrows(input, i, n - 1);
    }
  }

  lemma {:induction false} WeightCovers(input: seq<Byte>, j: nat, m: nat)
    requires j < m <= BUCKETS
    ensures WeightTo(input, m) >= BucketSum(input, |input|, j) * BucketSum(input, |input|, j)
  {
    if m == j + 1 {
    } else {
      WeightCovers(input, j, m - 1);
    }
  }

  lemma NonZeroWeight(input: seq<Byte>, i: nat)
    requires i < |input| && input[i] != 0
    ensures Weight(input) >= 1
  {
    BucketSumGrows(input, i, |input|);
    WeightCovers(input, i % BUCKETS, BUCKETS);
    NatSquareMonotone(1, BucketSum(input, |input|, i % BUCKETS));
  }

  /** Every text of up to 9,804,800 bytes with a non-zero byte matches its own stored vector. */
  lemma ShortReportsMatchThemselves(input: seq<Byte>, i: nat)
    requires |input| <= 9_804_800 && i < |input| && input[i] != 0
    ensures Cosine(HashOf(input), HashOf(input)) > 0.7
  {
    hide Cosine;
    NonZeroWeight(input, i);
    WeightAtMost(input, BUCKETS, 76_600, (255 * 76_600) * (255 * 76_600));
    ReportMatchesItself(input);
  }

  // ----- Texts of one repeated character -----

  /** The text consists of `k` full rounds over the buckets, all with byte `c`. */
  predicate Uniform(input: seq<Byte>, c: Byte, k: nat) {
    |input| == BUCKETS * k && forall i :: 0 <= i < |input| ==> input[i] == c
  }

  lemma {:induction false} UniformBucket(input: seq<Byte>, c: Byte, n: nat, j: nat)
    requires n <= |input| && j < BUCKETS && forall i :: 0 <= i < |input| ==> input[i] == c
    ensures BucketSum(input, n, j) == c * Rounds(n, j)
  {
    if n == 0 {
    } else {
      hide Rounds;
      UniformBucket(input, c, n - 1, j);
      RoundsStep(n, j);
      Distribute(c, Rounds(n - 1, j));
    }
  }

  lemma Distribute(c: nat, q: nat)
    ensures c * (q + 1) == c * q + c
  {
  }

  lemma {:induction false} UniformWeight(input: seq<Byte>, c: Byte, k: nat, m: nat, square: nat)
    requires m <= BUCKETS && Uniform(input, c, k) && square == (c * k) * (c * k)
    ensures WeightTo(input, m) == m * square
  {
    if m == 0 {
    } else {
      hide BucketSum;
      UniformWeight(input, c, k, m - 1, square);
      UniformBucket(input, c, |input|, m - 1);
      assert Rounds(|input|, m - 1) == k;
      assert m * square == (m - 1) * square + square;
    }
  }

  /** A text repeating one character over full rounds matches itself exactly when 128 (c k)^2 is within bounds. */
  lemma UniformReportMatchesItself(input: seq<Byte>, c: Byte, k: nat, square: nat)
    requires Uniform(input, c, k) && square == (c * k) * (c * k)
    ensures Cosine(HashOf(input), HashOf(input)) > 0.7 <==> 1 <= BUCKETS * square <= MAX_WEIGHT
  {
    hide Cosine;
    UniformWeight(input, c, k, BUCKETS, square);
    ReportMatchesItself(input);
  }

  /** The limit is real for plain text: 19,843,328 characters '~' (126) do not match themselves, although
      128 characters fewer do. */
  lemma LongReportMissesItself(long: seq<Byte>, short: seq<Byte>)
    requires |long| == 19_843_328 && forall i :: 0 <= i < |long| ==> long[i] == 126
    requires |short| == 19_843_200 && forall i :: 0 <= i < |short| ==> short[i] == 126
    ensures Cosine(HashOf(long), HashOf(long)) <= 0.7
    ensures Cosine(HashOf(short), HashOf(short)) > 0.7
  {
    hide Cosine;
    UniformReportMatchesItself(long, 126, 155_026, (126 * 155_026) * (126 * 155_026));
    UniformReportMatchesItself(short, 126, 155_025, (126 * 155_025) * (126 * 155_025));
  }

  /** Up to a million bytes the self-score stays at 0.99 or more. */
  lemma MillionByteSelfScore(input: seq<Byte>, i: nat)
    requires |input| <= 1_000_000 && i < |input| && input[i] != 0
    ensures Cosine(HashOf(input), HashOf(input)) >= 0.99
  {
    hide Cosine, RelError, SelfSim;
    NonZeroWeight(input, i);
    WeightAtMost(input, BUCKETS, 7_813, (255 * 7_813) * (255 * 7_813));
    SelfScoreOfReport(input);
    var x := EnergyOf(Weight(input));
    assert 1.0 / 65025.0 <= x <= 7_813_500_032.0;
    SelfSimLowerBound(x, 1_863.0);
    ScoreFloor(SelfSim(x));
  }

  lemma ScoreFloor(s: real)
    requires s * (1.0 + (1.0 + 1_863.0) / FOUR_TO_9) >= 1.0
    ensures s >= 0.99
  {
  }

  /** `hashToVector`: fill the buckets, then normalise them in place. */
  method HashToVector(input: seq<Byte>) returns (result: Vec)
    ensures result == HashOf(input)
  {
    var v := new real[BUCKETS](_ => 0.0);
    for i := 0 to |input|
      invariant forall j :: 0 <= j < BUCKETS ==> v[j] == BucketSum(input, i, j) as real / 255.0
    {
      v[i % BUCKETS] := v[i % BUCKETS] + input[i] as real / 255.0;
    }
    assert v[..] == RawVector(input);
    hide RawVector, BucketSum, Normalised;
    Normalise(v);
    return v[..];
  }

  /** The second half of `hashToVector`: sum the squares, then rescale. A zero sum leaves the
      vector alone: the Go root of 0 is NaN, and `norm > 0` fails. */
  method Normalise(v: array<real>)
    modifies v
    ensures v[..] == Normalised(old(v[..]))
  {
    ghost var raw := v[..];
    var norm := 0.0;
    for i := 0 to v.Length
      invariant norm == Dot(raw, raw, i)
      invariant v[..] == raw
    {
      assert v[i] == raw[i];
      norm := norm + v[i] * v[i];
    }
    ZeroEnergy(raw);
    if norm > 0.0 {
      norm := Sqrt10(norm);
      ghost var unit := Scale(1.0 / norm, raw);
      assert unit == Normalised(raw);
      hide Root, Dot, Scale, Normalised;
      for i := 0 to v.Length
        invariant forall j :: 0 <= j < i ==> v[j] == unit[j]
        invariant forall j :: i <= j < v.Length ==> v[j] == raw[j]
      {
        DivideIsScale(raw, norm, i);
        v[i] := v[i] / norm;
      }
      assert v[..] == unit;
    }
  }
}
