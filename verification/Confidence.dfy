/** `compute_confidence` on the scores of similar reports, and what it says when those reports come
    from `find_duplicates` on an index filled by `deduplicate_report`. */
module Confidence {
  import opened Common
  import opened RealArith
  import opened Vectors
  import opened Embedding
  import opened Dedup

  /** A match without a score counts as 0. */
  function ScoreOf(score: Option<real>): real {
    if score.Some? then score.value else 0.0
  }

  function Total(scores: seq<Option<real>>): real
    decreases |scores|
  {
    if scores == [] then 0.0 else Total(scores[..|scores| - 1]) + ScoreOf(scores[|scores| - 1])
  }

  function Mean(scores: seq<Option<real>>): real
    requires scores != []
  {
    Total(scores) / |scores| as real
  }

  function Least(a: real, b: real): real {
    if a <= b then a else b
  }

  /** Five matches or more give full weight. */
  function CountFactor(n: nat): real {
    Least(n as real / 5.0, 1.0)
  }

  function Uncapped(scores: seq<Option<real>>): real
    requires scores != []
  {
    Mean(scores) * 0.7 + CountFactor(|scores|) * 0.3
  }

  function ConfidenceOf(scores: seq<Option<real>>): real {
    if scores == [] then 0.0 else Least(Uncapped(scores), 1.0)
  }

  predicate Within(scores: seq<Option<real>>, low: real, high: real) {
    forall i :: 0 <= i < |scores| ==> low <= ScoreOf(scores[i]) <= high
  }

  lemma {:induction false} TotalWithin(scores: seq<Option<real>>, low: real, high: real)
    requires Within(scores, low, high)
    ensures low * |scores| as real <= Total(scores) <= high * |scores| as real
    decreases |scores|
  {
    if scores == [] {
    } else {
      TotalWithin(scores[..|scores| - 1], low, high);
    }
  }

  lemma MeanIs(scores: seq<Option<real>>)
    requires scores != []
    ensures Mean(scores) * |scores| as real == Total(scores)
  {
  }

  lemma MeanWithin(scores: seq<Option<real>>, low: real, high: real)
    requires scores != [] && Within(scores, low, high)
    ensures low <= Mean(scores) <= high
  {
    TotalWithin(scores, low, high);
    DivOrder(Total(scores), low, |scores| as real);
    DivOrder(Total(scores), high, |scores| as real);
  }

  /** Scores in [low, 1] keep the confidence in [0, 1]; the cap at 1 never changes it; and one match
      is enough for 0.7 low + 0.06. */
  lemma ConfidenceBounds(scores: seq<Option<real>>, low: real)
    requires 0.0 <= low && Within(scores, low, 1.0)
    ensures 0.0 <= ConfidenceOf(scores) <= 1.0
    ensures scores != [] ==> ConfidenceOf(scores) == Uncapped(scores)
    ensures scores != [] ==> ConfidenceOf(scores) >= 0.7 * low + 0.06
  {
    if scores != [] {
      MeanWithin(scores, low, 1.0);
    }
  }

  lemma {:induction false} TotalFull(scores: seq<Option<real>>)
    requires Within(scores, 0.0, 1.0)
    ensures Total(scores) == |scores| as real <==> Within(scores, 1.0, 1.0)
    decreases |scores|
  {
    if scores == [] {
    } else {
      var front, last := scores[..|scores| - 1], scores[|scores| - 1];
      TotalFull(front);
      TotalWithin(front, 0.0, 1.0);
      if Total(scores) == |scores| as real {
        assert Within(front, 1.0, 1.0) && ScoreOf(last) == 1.0;
        forall i | 0 <= i < |scores| ensures 1.0 <= ScoreOf(scores[i]) <= 1.0 {
          assert i < |scores| - 1 ==> scores[i] == front[i];
        }
      }
    }
  }

  /** Full confidence means at least five matches, all of them perfect. */
  lemma FullConfidence(scores: seq<Option<real>>)
    requires Within(scores, 0.0, 1.0)
    ensures ConfidenceOf(scores) == 1.0 <==> |scores| >= 5 && Within(scores, 1.0, 1.0)
  {
    if scores != [] {
      ConfidenceBounds(scores, 0.0);
      MeanWithin(scores, 0.0, 1.0);
      MeanIs(scores);
      TotalFull(scores);
    }
  }

  /** How far below the current mean one more match may score without lowering the confidence. */
  function Slack(n: nat): real {
    if n < 5 then 3.0 * (n + 1) as real / 35.0 else 0.0
  }

  lemma MeanMoves(total: real, n: real, s: real, m: real, w: real)
    requires n > 0.0 && m * n == total && w * (n + 1.0) == total + s
    ensures (w - m) * (n + 1.0) == s - m
  {
  }

  lemma FactorMoves(n: nat)
    ensures CountFactor(n + 1) - CountFactor(n) == if n < 5 then 0.2 else 0.0
  {
  }

  lemma GainSign(d: real, g: real, n: real)
    requires n > 0.0
    ensures 0.7 * d + g >= 0.0 <==> d * n >= -(g * n / 0.7)
  {
    var e := d + g / 0.7;
    assert 0.7 * e == 0.7 * d + g;
    assert e * n == d * n + g * n / 0.7;
    if e >= 0.0 {
      MulNonNegative(e, n);
    } else {
      MulPositive(-e, n);
      assert (-e) * n == -(e * n);
    }
  }

  lemma GainDecides(n: nat, total: real, s: real, m: real, w: real)
    requires n > 0 && m * n as real == total && w * (n + 1) as real == total + s
    ensures w * 0.7 + CountFactor(n + 1) * 0.3 >= m * 0.7 + CountFactor(n) * 0.3 <==> s >= m - Slack(n)
  {
    var d, step, g := w - m, (n + 1) as real, if n < 5 then 0.06 else 0.0;
    assert step == n as real + 1.0;
    MeanMoves(total, n as real, s, m, w);
    GainSign(d, g, step);
    FactorMoves(n);
    assert g * step / 0.7 == Slack(n);
  }

  /** One more match keeps the confidence from falling exactly when it scores no less than the current
      mean minus the slack; from five matches on, exactly when it reaches the mean. */
  lemma MatchKeepsConfidence(scores: seq<Option<real>>, more: Option<real>)
    requires scores != [] && Within(scores + [more], 0.0, 1.0)
    ensures ConfidenceOf(scores + [more]) >= ConfidenceOf(scores)
      <==> ScoreOf(more) >= Mean(scores) - Slack(|scores|)
  {
    var longer := scores + [more];
    assert longer[..|scores|] == scores;
    forall i | 0 <= i < |scores| ensures 0.0 <= ScoreOf(scores[i]) <= 1.0 {
      assert scores[i] == longer[i];
    }
    ConfidenceBounds(scores, 0.0);
    ConfidenceBounds(longer, 0.0);
    MeanIs(scores);
    MeanIs(longer);
    assert Total(longer) == Total(scores) + ScoreOf(more);
    hide Mean, CountFactor, ConfidenceOf, Total, Slack;
    GainDecides(|scores|, Total(scores), ScoreOf(more), Mean(scores), Mean(longer));
  }

  lemma {:induction false} TotalMoves(scores: seq<Option<real>>, i: nat, s: Option<real>)
    requires i < |scores|
    ensures Total(scores[i := s]) == Total(scores) - ScoreOf(scores[i]) + ScoreOf(s)
    decreases |scores|
  {
    var changed, n := scores[i := s], |scores| - 1;
    if i == n {
      assert changed[..n] == scores[..n];
    } else {
      assert changed[..n] == scores[..n][i := s];
      TotalMoves(scores[..n], i, s);
    }
  }

  lemma ConfidenceIs(scores: seq<Option<real>>)
    requires scores != [] && Within(scores, 0.0, 1.0)
    ensures ConfidenceOf(scores) == Mean(scores) * 0.7 + CountFactor(|scores|) * 0.3
    ensures IsProduct(Total(scores), Mean(scores), |scores| as real)
  {
    ConfidenceBounds(scores, 0.0);
    MeanIs(scores);
  }

  lemma Spread(m: real, w: real, n: real, total: real, o: real, s: real, k: real, c: real, d: real)
    requires IsProduct(total, m, n) && IsProduct(total - o + s, w, n) && c == m * 0.7 + k && d == w * 0.7 + k
    ensures IsProduct(0.7 * (s - o), d - c, n)
  {
    assert (d - c) * n == 0.7 * (w * n) - 0.7 * (m * n);
  }

  lemma ScoreMoved(scores: seq<Option<real>>, i: nat, s: real)
    requires i < |scores| && Within(scores, 0.0, 1.0) && 0.0 <= s <= 1.0
    ensures IsProduct(0.7 * (s - ScoreOf(scores[i])),
                      ConfidenceOf(scores[i := Some(s)]) - ConfidenceOf(scores), |scores| as real)
  {
    var changed := scores[i := Some(s)];
    forall k | 0 <= k < |changed| ensures 0.0 <= ScoreOf(changed[k]) <= 1.0 {
      assert k != i ==> changed[k] == scores[k];
    }
    hide Mean, Total, ConfidenceOf, CountFactor, IsProduct;
    TotalMoves(scores, i, Some(s));
    ConfidenceIs(scores);
    ConfidenceIs(changed);
    Spread(Mean(scores), Mean(changed), |scores| as real, Total(scores), ScoreOf(scores[i]), s,
      CountFactor(|scores|) * 0.3, ConfidenceOf(scores), ConfidenceOf(changed));
  }

  /** One score changed by d among n moves the confidence by 0.7 d / n; a missing score counts as 0. */
  lemma ScoreMovesConfidence(scores: seq<Option<real>>, i: nat, s: real)
    requires i < |scores| && Within(scores, 0.0, 1.0) && 0.0 <= s <= 1.0
    ensures (ConfidenceOf(scores[i := Some(s)]) - ConfidenceOf(scores)) * |scores| as real
         == 0.7 * (s - if scores[i].Some? then scores[i].value else 0.0)
  {
    hide ConfidenceOf;
    ScoreMoved(scores, i, s);
  }

  // ----- On the result of a duplicate search -----

  function MatchScores(hits: seq<Hit>): (r: seq<Option<real>>)
    ensures |r| == |hits|
  {
    seq(|hits|, i requires 0 <= i < |hits| => Some(hits[i].score))
  }

  ghost predicate AllNonNegative(index: Index) {
    forall id :: id in index ==> NonNegative(index[id])
  }

  /** Every vector `deduplicate_report` ever stores is non-negative. */
  lemma {:induction false} StoredNonNegative(root: real -> real, calls: seq<Call>)
    ensures AllNonNegative(Exec(root, map[], calls))
    decreases |calls|
  {
    hide EmbeddingOf;
    if calls != [] {
      StoredNonNegative(root, calls[..|calls| - 1]);
      EmbeddingNonNegative(root, calls[|calls| - 1].words);
    }
  }

  lemma {:induction false} FilterWithin(hits: seq<Hit>, t: real)
    requires forall i :: 0 <= i < |hits| ==> 0.0 <= hits[i].score <= 1.0
    ensures forall i :: 0 <= i < |AtLeast(hits, t)| ==> AtLeast(hits, t)[i] in hits
    ensures Within(MatchScores(AtLeast(hits, t)), if t >= 0.0 then t else 0.0, 1.0)
    decreases |hits|
  {
    if hits == [] {
    } else {
      FilterWithin(hits[1..], t);
      var rest := AtLeast(hits[1..], t);
      var low := if t >= 0.0 then t else 0.0;
      forall i | 0 <= i < |rest| ensures low <= rest[i].score <= 1.0 {
        assert low <= ScoreOf(MatchScores(rest)[i]) <= 1.0;
      }
    }
  }

  lemma HitsInUnit(root: real -> real, index: Index, words: seq<Hash>, limit: nat, hits: seq<Hit>)
    requires ExactRoot(root) && AllNonNegative(index)
    requires TopHits(root, index, EmbeddingOf(root, words), limit, hits)
    ensures forall i :: 0 <= i < |hits| ==> 0.0 <= hits[i].score <= 1.0
  {
    hide Similarity, EmbeddingOf;
    EmbeddingNonNegative(root, words);
    forall i | 0 <= i < |hits| ensures 0.0 <= hits[i].score <= 1.0 {
      SimilarityBounds(root, EmbeddingOf(root, words), index[hits[i].id]);
    }
  }

  /** After any run of `deduplicate_report` calls, for any text: the confidence of what `find_duplicates`
      returns lies in [0, 1], is at least 0.655 exactly when some stored point of the whole index scores
      0.85 or more, and is 0 otherwise. */
  lemma SearchConfidence(root: real -> real, calls: seq<Call>, words: seq<Hash>, hits: seq<Hit>)
    requires ExactRoot(root)
    requires TopHits(root, Exec(root, map[], calls), EmbeddingOf(root, words), 20, hits)
    ensures var c := ConfidenceOf(MatchScores(AtLeast(hits, THRESHOLD)));
      var near := HasNear(root, Exec(root, map[], calls), EmbeddingOf(root, words));
      0.0 <= c <= 1.0 && (near <==> c >= 0.655) && (!near <==> c == 0.0)
  {
    hide Similarity, EmbeddingOf, HasNear, ConfidenceOf, Exec;
    var index := Exec(root, map[], calls);
    StoredNonNegative(root, calls);
    HitsInUnit(root, index, words, 20, hits);
    FilteredIffNear(root, index, EmbeddingOf(root, words), 20, hits);
    hide TopHits;
    FilterWithin(hits, THRESHOLD);
    var found := MatchScores(AtLeast(hits, THRESHOLD));
    ConfidenceBounds(found, THRESHOLD);
    EmptyConfidence(found);
  }

  lemma EmptyConfidence(scores: seq<Option<real>>)
    ensures scores == [] ==> ConfidenceOf(scores) == 0.0
  {
  }
}
