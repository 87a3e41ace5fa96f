/** `deduplicate_report` against `find_duplicates` on one index. Both cut the same ranking, so they always agree on
    scores; whether the matches themselves are a prefix depends on how ties fall, and exactly when is settled here. */
module DedupTies {
  import opened Common
  import opened Embedding
  import opened Dedup

  function IdsTo(hits: seq<Hit>, n: nat): set<string>
    requires n <= |hits|
  {
    if n == 0 then {} else IdsTo(hits, n - 1) + {hits[n - 1].id}
  }

  lemma {:induction false} IdsMember(hits: seq<Hit>, n: nat, id: string) returns (i: nat)
    requires n <= |hits| && id in IdsTo(hits, n)
    ensures i < n && hits[i].id == id
  {
    if hits[n - 1].id == id {
      i := n - 1;
    } else {
      i := IdsMember(hits, n - 1, id);
    }
  }

  lemma {:induction false} IdsCount(hits: seq<Hit>, n: nat)
    requires n <= |hits| && forall i, j :: 0 <= i < j < |hits| ==> hits[i].id != hits[j].id
    ensures |IdsTo(hits, n)| == n
  {
    if n == 0 {
    } else {
      IdsCount(hits, n - 1);
      if hits[n - 1].id in IdsTo(hits, n - 1) {
        var i := IdsMember(hits, n - 1, hits[n - 1].id);
      }
    }
  }

  lemma {:induction false} IdsOf(hits: seq<Hit>, n: nat, m: nat)
    requires m < n <= |hits|
    ensures hits[m].id in IdsTo(hits, n)
  {
    if m < n - 1 {
      IdsOf(hits, n - 1, m);
    }
  }

  /** A point scoring above the i-th hit is among the hits before it. */
  lemma RanksBefore(root: real -> real, index: Index, query: Embedded, l: nat, g: seq<Hit>, i: nat, id: string)
    requires TopHits(root, index, query, l, g) && i < |g|
    requires id in index && Similarity(root, query, index[id]) > g[i].score
    ensures id in IdsTo(g, i)
  {
    hide Similarity, IdsTo;
    var m: nat :| m < |g| && g[m].id == id by {
      assert Lists(g, id);
    }
    assert g[m].score > g[i].score;
    assert m < i;
    hide TopHits;
    IdsOf(g, i, m);
  }

  lemma HigherIdsFit(root: real -> real, index: Index, query: Embedded,
                     k: nat, h: seq<Hit>, l: nat, g: seq<Hit>, i: nat)
    requires TopHits(root, index, query, k, h) && TopHits(root, index, query, l, g)
    requires i < |h| && i < |g| && h[i].score > g[i].score
    ensures IdsTo(h, i + 1) <= IdsTo(g, i)
  {
    hide Similarity, IdsTo;
    forall id | id in IdsTo(h, i + 1) ensures id in IdsTo(g, i) {
      var a := IdsMember(h, i + 1, id);
      assert h[a].score >= h[i].score;
      RanksBefore(root, index, query, l, g, i, id);
    }
  }

  /** The i-th best score is the same in every answer, whatever the limits and the tie-breaking:
      otherwise i+1 distinct points would fit into i places. */
  lemma RankedScoreAtMost(root: real -> real, index: Index, query: Embedded,
                          k: nat, h: seq<Hit>, l: nat, g: seq<Hit>, i: nat)
    requires TopHits(root, index, query, k, h) && TopHits(root, index, query, l, g)
    requires i < |h| && i < |g|
    ensures h[i].score <= g[i].score
  {
    IdsCount(h, i + 1);
    IdsCount(g, i);
    hide Similarity, IdsTo;
    if h[i].score > g[i].score {
      HigherIdsFit(root, index, query, k, h, l, g, i);
      SubsetSize(IdsTo(h, i + 1), IdsTo(g, i));
    }
  }

  function Scores(hits: seq<Hit>): (r: seq<real>)
    ensures |r| == |hits|
  {
    seq(|hits|, i requires 0 <= i < |hits| => hits[i].score)
  }

  /** For the same index and text, `deduplicate_report` and `find_duplicates` (default threshold) agree: one
      reports a duplicate exactly when the other is non-empty, and the scores of the verdict's matches are a prefix
      of the other's, cut at ten. */
  lemma DedupAgreesWithFind(root: real -> real, index: Index, call: Call, search: SearchReply)
    requires BothAnswered(root, index, call, search)
    ensures var v, found := DedupVerdict(call), FoundBy(search, THRESHOLD).value;
      && (v.Duplicate? <==> found != [])
      && Scores(MatchesOf(v)) <= Scores(found)
      && |MatchesOf(v)| == (if |found| < 10 then |found| else 10)
  {
    hide Similarity, EmbeddingOf;
    var ten, twenty := call.search.hits, search.hits;
    RankedScoresAgree(root, index, EmbeddingOf(root, call.words), ten, twenty);
    hide TopHits;
    FiltersAgree(ten, twenty);
    hide AtLeast;
    assert MatchesOf(DedupVerdict(call)) == AtLeast(ten, THRESHOLD);
    PrefixScores(ten, |AtLeast(ten, THRESHOLD)|, twenty, |AtLeast(twenty, THRESHOLD)|);
  }

  /** A call of `deduplicate_report` and one of `find_duplicates` for its text, both answered by the index. */
  ghost predicate BothAnswered(root: real -> real, index: Index, call: Call, search: SearchReply) {
    && call.search.Hits? && Answered(root, index, call)
    && search.Hits? && TopHits(root, index, EmbeddingOf(root, call.words), 20, search.hits)
  }

  lemma RankedScoresAgree(root: real -> real, index: Index, query: Embedded, ten: seq<Hit>, twenty: seq<Hit>)
    requires TopHits(root, index, query, 10, ten) && TopHits(root, index, query, 20, twenty)
    ensures |ten| <= |twenty| && Descending(ten) && Descending(twenty)
    ensures |ten| < 10 ==> |ten| == |twenty| == |index|
    ensures forall i :: 0 <= i < |ten| ==> ten[i].score == twenty[i].score
  {
    hide Similarity;
    forall i | 0 <= i < |ten| ensures ten[i].score == twenty[i].score {
      RankedScoreAtMost(root, index, query, 10, ten, 20, twenty, i);
      RankedScoreAtMost(root, index, query, 20, twenty, 10, ten, i);
    }
  }

  /** Two descending lists whose scores agree as far as the shorter goes are cut alike by the filter. */
  lemma FiltersAgree(short: seq<Hit>, long: seq<Hit>)
    requires Descending(short) && Descending(long) && |short| <= |long|
    requires forall i :: 0 <= i < |short| ==> short[i].score == long[i].score
    ensures var m, n := |AtLeast(short, THRESHOLD)|, |AtLeast(long, THRESHOLD)|;
      && m <= |short| && n <= |long| && m == (if n < |short| then n else |short|)
      && AtLeast(short, THRESHOLD) == short[..m]
      && AtLeast(long, THRESHOLD) == long[..n]
  {
    hide AtLeast, Descending;
    FilterIsPrefix(short, THRESHOLD);
    FilterIsPrefix(long, THRESHOLD);
    var m, n := |AtLeast(short, THRESHOLD)|, |AtLeast(long, THRESHOLD)|;
    CutsAgree(short, m, long, n, THRESHOLD);
  }

  lemma PrefixScores(short: seq<Hit>, m: nat, long: seq<Hit>, n: nat)
    requires m <= |short| <= |long| && m <= n <= |long|
    requires forall i :: 0 <= i < |short| ==> short[i].score == long[i].score
    ensures Scores(short[..m]) <= Scores(long[..n])
  {
    assert Scores(short[..m]) == Scores(long[..n])[..m];
  }

  /** Exactly the first `n` hits reach `t`. */
  ghost predicate IsCut(hits: seq<Hit>, n: nat, t: real) {
    n <= |hits| && forall i :: 0 <= i < |hits| ==> (hits[i].score >= t <==> i < n)
  }

  lemma CutsAgree(short: seq<Hit>, m: nat, long: seq<Hit>, n: nat, t: real)
    requires IsCut(short, m, t) && IsCut(long, n, t) && |short| <= |long|
    requires forall i :: 0 <= i < |short| ==> short[i].score == long[i].score
    ensures m == if n < |short| then n else |short|
  {
    assert m < |short| ==> short[m].score == long[m].score;
    assert n < |short| ==> short[n].score == long[n].score;
  }

  // ----- When the matches are a prefix -----

  /** Stored points scoring strictly above `v`. */
  function Above(root: real -> real, index: Index, query: Embedded, v: real): set<string> {
    set id | id in index && Similarity(root, query, index[id]) > v
  }

  /** Two stored points with one score that counts as a duplicate. */
  predicate Tied(root: real -> real, index: Index, query: Embedded, a: string, b: string) {
    && a in index && b in index && a != b
    && Similarity(root, query, index[a]) == Similarity(root, query, index[b]) >= THRESHOLD
  }

  /** Every such tie is outscored by at least ten stored points. */
  ghost predicate TiesRankLow(root: real -> real, index: Index, query: Embedded) {
    forall a, b :: Tied(root, index, query, a, b) ==>
      |Above(root, index, query, Similarity(root, query, index[a]))| >= 10
  }

  /** Whatever the index answers for the text, the matches of `deduplicate_report` are a prefix of what
      `find_duplicates` returns. */
  ghost predicate AlwaysPrefix(root: real -> real, index: Index, words: seq<Hash>) {
    forall call: Call, search: SearchReply :: call.words == words && BothAnswered(root, index, call, search) ==>
      MatchesOf(DedupVerdict(call)) <= FoundBy(search, THRESHOLD).value
  }

  ghost predicate AnswersPrefix(root: real -> real, index: Index, query: Embedded) {
    forall ten, twenty :: TopHits(root, index, query, 10, ten) && TopHits(root, index, query, 20, twenty) ==>
      AtLeast(ten, THRESHOLD) <= AtLeast(twenty, THRESHOLD)
  }

  /** No more points score above the i-th hit than stand before it. */
  lemma AboveFits(root: real -> real, index: Index, query: Embedded, limit: nat, g: seq<Hit>, i: nat)
    requires TopHits(root, index, query, limit, g) && i < |g|
    ensures |Above(root, index, query, g[i].score)| <= i
  {
    hide Similarity, IdsTo;
    IdsCount(g, i);
    forall id | id in Above(root, index, query, g[i].score) ensures id in IdsTo(g, i) {
      RanksBefore(root, index, query, limit, g, i, id);
    }
    SubsetSize(Above(root, index, query, g[i].score), IdsTo(g, i));
  }

  lemma SameHit(root: real -> real, index: Index, query: Embedded, ten: seq<Hit>, twenty: seq<Hit>, i: nat)
    requires TopHits(root, index, query, 10, ten) && TopHits(root, index, query, 20, twenty)
    requires TiesRankLow(root, index, query)
    requires i < |ten| && i < |twenty| && ten[i].score == twenty[i].score >= THRESHOLD
    ensures ten[i] == twenty[i]
  {
    hide Similarity, Above;
    assert ten[i].id != twenty[i].id ==> Tied(root, index, query, ten[i].id, twenty[i].id);
    AboveFits(root, index, query, 10, ten, i);
  }

  lemma PrefixWhenTiesRankLow(root: real -> real, index: Index, query: Embedded, ten: seq<Hit>, twenty: seq<Hit>)
    requires TopHits(root, index, query, 10, ten) && TopHits(root, index, query, 20, twenty)
    requires TiesRankLow(root, index, query)
    ensures AtLeast(ten, THRESHOLD) <= AtLeast(twenty, THRESHOLD)
  {
    hide Similarity, TopHits, TiesRankLow, AtLeast, Descending;
    RankedScoresAgree(root, index, query, ten, twenty);
    FiltersAgree(ten, twenty);
    FilterIsPrefix(ten, THRESHOLD);
    var m := |AtLeast(ten, THRESHOLD)|;
    forall i | 0 <= i < m ensures ten[i] == twenty[i] {
      SameHit(root, index, query, ten, twenty, i);
    }
    assert ten[..m] == twenty[..m];
  }

  // ----- A full ranking exists, its prefixes are answers, and ties in it may be swapped -----

  ghost predicate IsRanking(root: real -> real, index: Index, query: Embedded, g: seq<Hit>) {
    && (forall i, j :: 0 <= i < j < |g| ==> g[i].id != g[j].id)
    && (forall i :: 0 <= i < |g| ==> g[i].id in index && g[i].score == Similarity(root, query, index[g[i].id]))
    && Descending(g)
    && (forall id :: id in index ==> Lists(g, id))
  }

  lemma {:induction false} Best(root: real -> real, index: Index, query: Embedded) returns (best: string)
    requires index != map[]
    ensures best in index
    ensures forall id :: id in index ==> Similarity(root, query, index[id]) <= Similarity(root, query, index[best])
    decreases |index.Keys|
  {
    hide Similarity;
    var first :| first in index;
    best := first;
    var rest := index - {first};
    assert rest.Keys == index.Keys - {first};
    assert forall id :: id in index ==> id == first || (id in rest && rest[id] == index[id]);
    if rest != map[] {
      var other := Best(root, rest, query);
      if Similarity(root, query, index[other]) > Similarity(root, query, index[best]) {
        best := other;
      }
    }
  }

  lemma {:induction false} RankingExists(root: real -> real, index: Index, query: Embedded) returns (g: seq<Hit>)
    ensures IsRanking(root, index, query, g)
    decreases |index.Keys|
  {
    hide Similarity;
    if index == map[] {
      g := [];
    } else {
      var best := Best(root, index, query);
      var rest := index - {best};
      assert rest.Keys == index.Keys - {best};
      var tail := RankingExists(root, rest, query);
      g := [Hit(best, Similarity(root, query, index[best]))] + tail;
      BestFirst(root, index, query, best, tail);
    }
  }

  lemma BestFirst(root: real -> real, index: Index, query: Embedded, best: string, tail: seq<Hit>)
    requires best in index && IsRanking(root, index - {best}, query, tail)
    requires forall id :: id in index ==> Similarity(root, query, index[id]) <= Similarity(root, query, index[best])
    ensures IsRanking(root, index, query, [Hit(best, Similarity(root, query, index[best]))] + tail)
  {
    hide Similarity;
    var g := [Hit(best, Similarity(root, query, index[best]))] + tail;
    assert g[0].id == best && forall i :: 0 < i < |g| ==> g[i] == tail[i - 1];
    forall id | id in index ensures Lists(g, id) {
      if id != best {
        assert Lists(tail, id);
        var k :| 0 <= k < |tail| && tail[k].id == id;
        assert g[k + 1].id == id;
      }
    }
  }

  lemma RankingSize(root: real -> real, index: Index, query: Embedded, g: seq<Hit>)
    requires IsRanking(root, index, query, g)
    ensures |g| == |index|
  {
    hide Similarity, IdsTo;
    IdsCount(g, |g|);
    forall id ensures id in IdsTo(g, |g|) <==> id in index {
      if id in IdsTo(g, |g|) {
        var i := IdsMember(g, |g|, id);
      }
      if id in index {
        assert Lists(g, id);
        var k: nat :| k < |g| && g[k].id == id;
        IdsOf(g, |g|, k);
      }
    }
    assert IdsTo(g, |g|) == index.Keys;
  }

  function Cut(g: seq<Hit>, limit: nat): seq<Hit> {
    if limit < |g| then g[..limit] else g
  }

  /** The first `limit` places of a ranking are an answer. */
  lemma CutIsAnswer(root: real -> real, index: Index, query: Embedded, g: seq<Hit>, limit: nat)
    requires IsRanking(root, index, query, g)
    ensures TopHits(root, index, query, limit, Cut(g, limit))
  {
    hide Similarity;
    RankingSize(root, index, query, g);
    var hits := Cut(g, limit);
    forall k | 0 <= k < |hits| ensures Lists(hits, g[k].id) {
      assert hits[k].id == g[k].id;
    }
    forall id, i | id in index && !Lists(hits, id) && 0 <= i < |hits|
      ensures Similarity(root, query, index[id]) <= hits[i].score
    {
      assert Lists(g, id);
      var k :| 0 <= k < |g| && g[k].id == id;
    }
  }

  function Swap(g: seq<Hit>, i: nat): seq<Hit>
    requires i + 1 < |g|
  {
    g[i := g[i + 1]][i + 1 := g[i]]
  }

  lemma SwapShape(g: seq<Hit>, i: nat)
    requires i + 1 < |g|
    ensures var h := Swap(g, i);
      && |h| == |g| && h[i] == g[i + 1] && h[i + 1] == g[i]
      && forall k :: 0 <= k < |g| && k != i && k != i + 1 ==> h[k] == g[k]
  {
  }

  lemma SwapLists(g: seq<Hit>, i: nat, id: string)
    requires i + 1 < |g| && Lists(g, id)
    ensures Lists(Swap(g, i), id)
  {
    SwapShape(g, i);
    hide Swap;
    var k :| 0 <= k < |g| && g[k].id == id;
    assert Swap(g, i)[if k == i then i + 1 else if k == i + 1 then i else k].id == id;
  }

  lemma SwapDescending(g: seq<Hit>, i: nat)
    requires i + 1 < |g| && Descending(g) && g[i].score == g[i + 1].score
    ensures Descending(Swap(g, i))
  {
    SwapShape(g, i);
    hide Swap;
    forall k | 0 <= k < |g| ensures Swap(g, i)[k].score == g[k].score {
    }
  }

  /** Two neighbours with one score may change places. */
  lemma SwapIsRanking(root: real -> real, index: Index, query: Embedded, g: seq<Hit>, i: nat)
    requires IsRanking(root, index, query, g) && i + 1 < |g| && g[i].score == g[i + 1].score
    ensures IsRanking(root, index, query, Swap(g, i))
  {
    hide Similarity, Swap, Lists, Descending;
    SwapShape(g, i);
    SwapDescending(g, i);
    forall id | id in index ensures Lists(Swap(g, i), id) {
      SwapLists(g, i, id);
    }
  }

  lemma {:induction false} FirstWithScore(g: seq<Hit>, v: real, k: nat) returns (j: nat)
    requires k < |g| && g[k].score == v
    ensures j <= k && g[j].score == v && forall i :: 0 <= i < j ==> g[i].score != v
  {
    if i: nat :| i < k && g[i].score == v {
      j := FirstWithScore(g, v, i);
    } else {
      j := k;
    }
  }

  lemma BeforeIsAbove(root: real -> real, index: Index, query: Embedded, g: seq<Hit>, j: nat, v: real)
    requires IsRanking(root, index, query, g) && j <= |g| && forall i :: 0 <= i < j ==> g[i].score > v
    ensures j <= |Above(root, index, query, v)|
  {
    hide Similarity, IdsTo;
    IdsCount(g, j);
    forall id | id in IdsTo(g, j) ensures id in Above(root, index, query, v) {
      var i := IdsMember(g, j, id);
    }
    SubsetSize(IdsTo(g, j), Above(root, index, query, v));
  }

  /** A tie outscored by fewer than ten points shows among the first ten places of a ranking. */
  lemma TieInRanking(root: real -> real, index: Index, query: Embedded, a: string, b: string, g: seq<Hit>)
    returns (j: nat)
    requires IsRanking(root, index, query, g) && Tied(root, index, query, a, b)
    requires |Above(root, index, query, Similarity(root, query, index[a]))| < 10
    ensures j < 10 && j + 1 < |g| && g[j].score == g[j + 1].score >= THRESHOLD
  {
    hide Similarity, IdsTo;
    assert Lists(g, a) && Lists(g, b);
    var v := Similarity(root, query, index[a]);
    var p: nat :| p < |g| && g[p].id == a;
    var q: nat :| q < |g| && g[q].id == b;
    j := FirstWithScore(g, v, p);
    var last := if p < q then q else p;
    assert j < last by {
      assert g[q].score == v;
    }
    assert g[j].score >= g[j + 1].score >= g[last].score;
    assert forall i :: 0 <= i < j ==> g[i].score >= g[j].score;
    hide Above;
    BeforeIsAbove(root, index, query, g, j, v);
  }

  /** Such a tie has two answers that disagree on the order of its points. */
  lemma TieBreaksPrefix(root: real -> real, index: Index, query: Embedded, a: string, b: string)
    returns (ten: seq<Hit>, twenty: seq<Hit>)
    requires Tied(root, index, query, a, b)
    requires |Above(root, index, query, Similarity(root, query, index[a]))| < 10
    ensures TopHits(root, index, query, 10, ten) && TopHits(root, index, query, 20, twenty)
    ensures !(AtLeast(ten, THRESHOLD) <= AtLeast(twenty, THRESHOLD))
  {
    var g := RankingExists(root, index, query);
    var j := TieInRanking(root, index, query, a, b, g);
    SwapIsRanking(root, index, query, g, j);
    CutIsAnswer(root, index, query, g, 10);
    CutIsAnswer(root, index, query, Swap(g, j), 20);
    ten, twenty := Cut(g, 10), Cut(Swap(g, j), 20);
    assert g[j].id != g[j + 1].id;
    assert ten[j] == g[j] && twenty[j] == g[j + 1];
    DifferAt(ten, twenty, j) by {
      hide Similarity, Cut, Swap;
    }
  }

  lemma DifferAt(ten: seq<Hit>, twenty: seq<Hit>, j: nat)
    requires Descending(ten) && Descending(twenty) && j < |ten| && j < |twenty|
    requires ten[j].score >= THRESHOLD && ten[j] != twenty[j]
    ensures !(AtLeast(ten, THRESHOLD) <= AtLeast(twenty, THRESHOLD))
  {
    hide AtLeast;
    FilterIsPrefix(ten, THRESHOLD);
    FilterIsPrefix(twenty, THRESHOLD);
    assert j < |AtLeast(ten, THRESHOLD)| && AtLeast(ten, THRESHOLD)[j] == ten[j];
  }

  lemma AnswersPrefixIff(root: real -> real, index: Index, query: Embedded)
    ensures AnswersPrefix(root, index, query) <==> TiesRankLow(root, index, query)
  {
    hide TopHits, Above, Similarity, AtLeast;
    if TiesRankLow(root, index, query) {
      forall ten, twenty | TopHits(root, index, query, 10, ten) && TopHits(root, index, query, 20, twenty)
        ensures AtLeast(ten, THRESHOLD) <= AtLeast(twenty, THRESHOLD)
      {
        PrefixWhenTiesRankLow(root, index, query, ten, twenty);
      }
    } else {
      var a, b :| Tied(root, index, query, a, b)
        && |Above(root, index, query, Similarity(root, query, index[a]))| < 10;
      var ten, twenty := TieBreaksPrefix(root, index, query, a, b);
    }
  }

  /** The matches of `deduplicate_report` are a prefix of the result of `find_duplicates` in all answers of the
      index exactly when every tie of duplicates is outscored by at least ten stored points. */
  lemma PrefixIffTiesRankLow(root: real -> real, index: Index, words: seq<Hash>)
    ensures AlwaysPrefix(root, index, words) <==> TiesRankLow(root, index, EmbeddingOf(root, words))
  {
    hide TopHits, TiesRankLow, AtLeast, EmbeddingOf;
    var query := EmbeddingOf(root, words);
    AnswersPrefixIff(root, index, query);
    forall call: Call | call.search.Hits?
      ensures MatchesOf(DedupVerdict(call)) == AtLeast(call.search.hits, THRESHOLD)
    {
    }
    if AlwaysPrefix(root, index, words) {
      forall ten, twenty | TopHits(root, index, query, 10, ten) && TopHits(root, index, query, 20, twenty)
        ensures AtLeast(ten, THRESHOLD) <= AtLeast(twenty, THRESHOLD)
      {
        var call := Call("", words, Hits(ten), Done);
        assert BothAnswered(root, index, call, Hits(twenty));
      }
    } else {
      var call: Call, search: SearchReply :| call.words == words && BothAnswered(root, index, call, search)
        && !(MatchesOf(DedupVerdict(call)) <= FoundBy(search, THRESHOLD).value);
    }
  }
}
