/** The Julia duplicate check: embed, search the index, store only when nothing scores 0.85 or more.
    Qdrant enters through its contract: a search returns the top `limit` stored points by cosine in
    descending order, with an unspecified choice among ties; an upsert replaces the point with that id. */
module Dedup {
  import opened Common
  import opened Vectors
  import opened Embedding

  type Index = map<string, Embedded>

  datatype Hit = Hit(id: string, score: real)

  const THRESHOLD := 0.85

  ghost predicate TopHits(root: real -> real, index: Index, query: Embedded, limit: nat, hits: seq<Hit>) {
    && |hits| == (if limit < |index| then limit else |index|)
    && (forall i, j :: 0 <= i < j < |hits| ==> hits[i].id != hits[j].id)
    && (forall i :: 0 <= i < |hits| ==>
          hits[i].id in index && hits[i].score == Similarity(root, query, index[hits[i].id]))
    && (forall i, j :: 0 <= i < j < |hits| ==> hits[i].score >= hits[j].score)
    && (forall id, i :: id in index && !Lists(hits, id) && 0 <= i < |hits| ==>
          Similarity(root, query, index[id]) <= hits[i].score)
  }

  ghost predicate Lists(hits: seq<Hit>, id: string) {
    exists k :: 0 <= k < |hits| && hits[k].id == id
  }

  /** The hits scoring at least `t`, in order. */
  function AtLeast(hits: seq<Hit>, t: real): seq<Hit> {
    if hits == [] then []
    else if hits[0].score >= t then [hits[0]] + AtLeast(hits[1..], t)
    else AtLeast(hits[1..], t)
  }

  /** The positions `at` increase and lead to the picked hits. */
  ghost predicate Picks(hits: seq<Hit>, picked: seq<Hit>, at: seq<nat>) {
    && |at| == |picked|
    && (forall i, j :: 0 <= i < j < |at| ==> at[i] < at[j])
    && (forall i :: 0 <= i < |at| ==> at[i] < |hits| && picked[i] == hits[at[i]])
  }

  /** `picked` lists, in order, exactly the hits scoring at least `t`, found at the positions `at`. */
  ghost predicate IsSelection(hits: seq<Hit>, picked: seq<Hit>, t: real, at: seq<nat>) {
    && Picks(hits, picked, at)
    && (forall k: nat :: k < |hits| ==> (hits[k].score >= t <==> k in at))
  }

  ghost predicate Selects(hits: seq<Hit>, picked: seq<Hit>, t: real) {
    exists at :: IsSelection(hits, picked, t, at)
  }

  lemma {:induction false} FilterSelects(hits: seq<Hit>, t: real) returns (at: seq<nat>)
    ensures IsSelection(hits, AtLeast(hits, t), t, at)
    decreases |hits|
  {
    if hits == [] {
      at := [];
    } else {
      var first, tail := hits[0], hits[1..];
      assert hits == [first] + tail;
      var rest := FilterSelects(tail, t);
      var picked := AtLeast(tail, t);
      assert AtLeast(hits, t) == if first.score >= t then [first] + picked else picked;
      at := (if first.score >= t then [0] else []) + Moved(rest);
      hide AtLeast;
      SelectionExtends(first, tail, picked, t, rest);
    }
  }

  /** Every position one further on. */
  function Moved(at: seq<nat>): (r: seq<nat>)
    ensures |r| == |at|
  {
    seq(|at|, i requires 0 <= i < |at| => at[i] + 1)
  }

  lemma MovedHolds(at: seq<nat>, k: nat)
    ensures k in Moved(at) <==> k > 0 && k - 1 in at
  {
    if k in Moved(at) {
      var i :| 0 <= i < |at| && Moved(at)[i] == k;
      assert at[i] == k - 1;
    }
    if k > 0 && k - 1 in at {
      var i :| 0 <= i < |at| && at[i] == k - 1;
      assert Moved(at)[i] == k;
    }
  }

  lemma SelectionExtends(first: Hit, tail: seq<Hit>, picked: seq<Hit>, t: real, rest: seq<nat>)
    requires IsSelection(tail, picked, t, rest)
    ensures IsSelection([first] + tail, if first.score >= t then [first] + picked else picked, t,
                        (if first.score >= t then [0] else []) + Moved(rest))
  {
    var hits, moved := [first] + tail, Moved(rest);
    MovedPicks(first, tail, picked, rest);
    forall k: nat | k < |hits|
      ensures hits[k].score >= t <==> k in (if first.score >= t then [0] else []) + moved
    {
      PositionListed(first, tail, picked, t, rest, k);
    }
    hide Moved;
    if first.score >= t {
      HeadPicked(first, tail, picked, moved);
    } else {
      assert [] + moved == moved;
    }
  }

  lemma MovedPicks(first: Hit, tail: seq<Hit>, picked: seq<Hit>, rest: seq<nat>)
    requires Picks(tail, picked, rest)
    ensures Picks([first] + tail, picked, Moved(rest)) && forall i :: 0 <= i < |rest| ==> Moved(rest)[i] > 0
  {
  }

  lemma HeadPicked(first: Hit, tail: seq<Hit>, picked: seq<Hit>, moved: seq<nat>)
    requires Picks([first] + tail, picked, moved) && forall i :: 0 <= i < |moved| ==> moved[i] > 0
    ensures Picks([first] + tail, [first] + picked, [0] + moved)
  {
  }

  lemma PositionListed(first: Hit, tail: seq<Hit>, picked: seq<Hit>, t: real, rest: seq<nat>, k: nat)
    requires IsSelection(tail, picked, t, rest) && k < 1 + |tail|
    ensures ([first] + tail)[k].score >= t <==> k in (if first.score >= t then [0] else []) + Moved(rest)
  {
    MovedHolds(rest, k);
    hide Moved;
    if k > 0 {
      assert ([first] + tail)[k] == tail[k - 1];
      assert tail[k - 1].score >= t <==> k - 1 in rest;
    }
  }

  datatype SearchReply = SearchFailed | Hits(hits: seq<Hit>)

  datatype Call = Call(id: string, words: seq<Hash>, search: SearchReply, upsert: Outcome)

  /** A search failure propagates; otherwise a duplicate with its matches, or a fresh report and
      whether it was stored. */
  datatype Verdict =
    | Errored
    | Duplicate(matches: seq<Hit>, bestId: string, bestScore: real)
    | Fresh(stored: bool)

  function DedupIndex(root: real -> real, index: Index, call: Call): Index {
    if call.search.Hits? && AtLeast(call.search.hits, THRESHOLD) == [] && Applied(call.upsert)
    then index[call.id := EmbeddingOf(root, call.words)]
    else index
  }

  function DedupVerdict(call: Call): Verdict {
    match call.search
    case SearchFailed => Errored
    case Hits(hits) =>
      var high := AtLeast(hits, THRESHOLD);
      if high != [] then Duplicate(high, high[0].id, high[0].score) else Fresh(call.upsert.Done?)
  }

  /** The matches a verdict lists. */
  function MatchesOf(verdict: Verdict): seq<Hit> {
    if verdict.Duplicate? then verdict.matches else []
  }

  /** The result of `find_duplicates`. */
  function FoundBy(search: SearchReply, threshold: real): Option<seq<Hit>> {
    match search
    case SearchFailed => None
    case Hits(hits) => Some(AtLeast(hits, threshold))
  }

  /** The verdict of a call that got its hits: its matches are exactly the hits scoring 0.85 or more, in their
      order; it is a duplicate when there is one, and the best match is the first. */
  lemma VerdictMatches(call: Call)
    requires call.search.Hits?
    ensures Selects(call.search.hits, MatchesOf(DedupVerdict(call)), 0.85)
    ensures DedupVerdict(call).Duplicate? <==>
      exists i :: 0 <= i < |call.search.hits| && call.search.hits[i].score >= 0.85
    ensures DedupVerdict(call).Duplicate? ==>
      var v := DedupVerdict(call);
      v.matches != [] && v.bestId == v.matches[0].id && v.bestScore == v.matches[0].score
  {
    var hits := call.search.hits;
    var at := FilterSelects(hits, THRESHOLD);
    hide AtLeast;
    if i: nat :| i < |hits| && hits[i].score >= 0.85 {
      assert i in at;
    }
    if AtLeast(hits, THRESHOLD) != [] {
      assert at[0] in at;
      assert hits[at[0]].score >= 0.85;
    }
  }

  /** The search reply of the call, if it came, obeys the search contract for this index. */
  ghost predicate Answered(root: real -> real, index: Index, call: Call) {
    call.search.Hits? ==> TopHits(root, index, EmbeddingOf(root, call.words), 10, call.search.hits)
  }

  class ReportIndex {
    var points: Index

    constructor ()
      ensures points == map[]
    {
      points := map[];
    }

    /** `deduplicate_report`. */
    method DeduplicateReport(root: real -> real, call: Call) returns (verdict: Verdict)
      modifies this
      ensures points == DedupIndex(root, old(points), call)
      ensures verdict == DedupVerdict(call)
      ensures verdict.Errored? <==> call.search.SearchFailed?
      ensures verdict.Duplicate? <==>
        call.search.Hits? && exists i :: 0 <= i < |call.search.hits| && call.search.hits[i].score >= 0.85
      ensures verdict.Duplicate? ==>
        && Selects(call.search.hits, verdict.matches, 0.85) && verdict.matches != []
        && verdict.bestId == verdict.matches[0].id && verdict.bestScore == verdict.matches[0].score
      ensures verdict.Fresh? ==> (verdict.stored <==> call.upsert.Done?)
      ensures points == if verdict.Fresh? && Applied(call.upsert)
        then old(points)[call.id := EmbeddingOf(root, call.words)] else old(points)
    {
      if call.search.Hits? {
        VerdictMatches(call);
      }
      hide Selects, AtLeast;
      var embedding := ComputeEmbedding(root, call.words);
      if call.search.SearchFailed? {
        return Errored;
      }
      var high := AtLeast(call.search.hits, THRESHOLD);
      if high != [] {
        return Duplicate(high, high[0].id, high[0].score);
      }
      if Applied(call.upsert) {
        points := points[call.id := embedding];
      }
      return Fresh(call.upsert.Done?);
    }

    /** `find_duplicates`: search for twenty points and keep those reaching the threshold; a search failure
        propagates. The result is non-empty exactly when some point of the whole index reaches it. */
    method FindDuplicates(root: real -> real, words: seq<Hash>, threshold: real, search: SearchReply)
      returns (found: Option<seq<Hit>>)
      ensures found.None? <==> search.SearchFailed?
      ensures found == FoundBy(search, threshold)
      ensures search.Hits? ==> Selects(search.hits, found.value, threshold)
      ensures search.Hits? && TopHits(root, points, EmbeddingOf(root, words), 20, search.hits) ==>
        (found.value != [] <==> Reaches(root, points, EmbeddingOf(root, words), threshold))
    {
      var embedding := ComputeEmbedding(root, words);
      if search.SearchFailed? {
        return None;
      }
      ghost var at := FilterSelects(search.hits, threshold);
      hide Similarity, EmbeddingOf, TopHits, Reaches;
      if TopHits(root, points, embedding, 20, search.hits) {
        FilteredIffReaches(root, points, embedding, 20, search.hits, threshold);
      }
      return Some(AtLeast(search.hits, threshold));
    }
  }

  // ----- Filtering a descending list -----

  ghost predicate Descending(hits: seq<Hit>) {
    forall i, j :: 0 <= i < j < |hits| ==> hits[i].score >= hits[j].score
  }

  /** On a descending list the filter is a prefix: everything before the cut passes, nothing after it. */
  lemma {:induction false} FilterIsPrefix(hits: seq<Hit>, t: real)
    requires Descending(hits)
    ensures AtLeast(hits, t) <= hits
    ensures forall i :: 0 <= i < |hits| ==> (hits[i].score >= t <==> i < |AtLeast(hits, t)|)
    decreases |hits|
  {
    if hits == [] {
    } else {
      FilterIsPrefix(hits[1..], t);
      var rest := AtLeast(hits[1..], t);
      if hits[0].score < t {
        assert |hits| > 1 ==> hits[1..][0] == hits[1];
      } else {
        forall i | 0 <= i < |hits| ensures hits[i].score >= t <==> i < |AtLeast(hits, t)| {
          if i > 0 {
            assert hits[i] == hits[1..][i - 1];
          }
        }
      }
    }
  }

  /** Threshold filtering commutes with taking a prefix. */
  lemma FilterOfPrefix(hits: seq<Hit>, k: nat, t: real)
    requires Descending(hits) && k <= |hits|
    ensures AtLeast(hits[..k], t) <= AtLeast(hits, t)
    ensures |AtLeast(hits[..k], t)| == if |AtLeast(hits, t)| < k then |AtLeast(hits, t)| else k
  {
    FilterIsPrefix(hits, t);
    FilterIsPrefix(hits[..k], t);
    var m, n := |AtLeast(hits[..k], t)|, |AtLeast(hits, t)|;
    assert m < k ==> hits[..k][m] == hits[m];
    assert n < k ==> hits[..k][n] == hits[n];
  }

  // ----- The verdict is about the whole index, not just the ten points seen -----

  ghost predicate Reaches(root: real -> real, index: Index, query: Embedded, t: real) {
    exists id :: id in index && Similarity(root, query, index[id]) >= t
  }

  ghost predicate HasNear(root: real -> real, index: Index, query: Embedded) {
    Reaches(root, index, query, THRESHOLD)
  }

  /** The first hit scores highest over the whole index. */
  lemma FirstHitIsBest(root: real -> real, index: Index, query: Embedded, limit: nat, hits: seq<Hit>)
    requires TopHits(root, index, query, limit, hits) && limit > 0
    ensures hits == [] <==> index == map[]
    ensures hits != [] ==> hits[0].id in index
    ensures hits != [] ==> forall id :: id in index ==> Similarity(root, query, index[id]) <= hits[0].score
  {
    hide Similarity;
    if index != map[] {
      var id :| id in index;
      assert |index| == |index.Keys| && index.Keys != {};
    }
  }

  /** What a search with any positive limit tells about a threshold: some hit reaches it exactly when
      some stored point does. */
  lemma FilteredIffReaches(root: real -> real, index: Index, query: Embedded, limit: nat, hits: seq<Hit>, t: real)
    requires TopHits(root, index, query, limit, hits) && limit > 0
    ensures AtLeast(hits, t) != [] <==> Reaches(root, index, query, t)
    ensures AtLeast(hits, t) != [] ==> hits != [] && AtLeast(hits, t)[0] == hits[0]
  {
    hide Similarity;
    FirstHitIsBest(root, index, query, limit, hits);
    FilterIsPrefix(hits, t);
    if hits != [] && hits[0].score >= t {
      assert hits[0].id in index;
    }
  }

  lemma FilteredIffNear(root: real -> real, index: Index, query: Embedded, limit: nat, hits: seq<Hit>)
    requires TopHits(root, index, query, limit, hits) && limit > 0
    ensures AtLeast(hits, THRESHOLD) != [] <==> HasNear(root, index, query)
    ensures AtLeast(hits, THRESHOLD) != [] ==> hits != [] && AtLeast(hits, THRESHOLD)[0] == hits[0]
  {
    hide Similarity, TopHits, Reaches;
    FilteredIffReaches(root, index, query, limit, hits, THRESHOLD);
  }

  /** A report is a duplicate exactly when some stored point scores 0.85 or more; the best match then has
      the maximum score over the whole index; the index is then unchanged. */
  lemma DuplicateIffNear(root: real -> real, index: Index, call: Call)
    requires Answered(root, index, call) && call.search.Hits?
    ensures DedupVerdict(call).Duplicate? <==> HasNear(root, index, EmbeddingOf(root, call.words))
    ensures DedupVerdict(call).Duplicate? ==>
      var v, e := DedupVerdict(call), EmbeddingOf(root, call.words);
      && DedupIndex(root, index, call) == index
      && v.bestId in index && v.bestScore == Similarity(root, e, index[v.bestId]) >= THRESHOLD
      && forall id :: id in index ==> Similarity(root, e, index[id]) <= v.bestScore
  {
    hide Similarity, EmbeddingOf;
    var e := EmbeddingOf(root, call.words);
    FilteredIffNear(root, index, e, 10, call.search.hits);
    FirstHitIsBest(root, index, e, 10, call.search.hits);
  }

  // ----- Separation -----

  ghost predicate Separated(root: real -> real, index: Index) {
    forall a, b :: a in index && b in index && a != b ==> Similarity(root, index[a], index[b]) < THRESHOLD
  }

  lemma StoreSeparated(root: real -> real, index: Index, id: string, e: Embedded)
    requires Separated(root, index) && !HasNear(root, index, e)
    ensures Separated(root, index[id := e])
  {
    hide Similarity;
    var next := index[id := e];
    forall a, b | a in next && b in next && a != b
      ensures Similarity(root, next[a], next[b]) < THRESHOLD
    {
      SimilaritySymmetric(root, next[a], next[b]);
    }
  }

  function Exec(root: real -> real, index: Index, calls: seq<Call>): Index
    decreases |calls|
  {
    if calls == [] then index
    else DedupIndex(root, Exec(root, index, calls[..|calls| - 1]), calls[|calls| - 1])
  }

  /** Every call of the run was answered according to the index it met. */
  ghost predicate RunAnswered(root: real -> real, index: Index, calls: seq<Call>) {
    forall i :: 0 <= i < |calls| ==> Answered(root, Exec(root, index, calls[..i]), calls[i])
  }

  /** Separation invariant: after any sequence of calls from an empty index (re-used ids, failed searches,
      failed upserts, upserts that fail after being applied) distinct stored points score below 0.85. */
  lemma {:induction false} RunSeparated(root: real -> real, calls: seq<Call>)
    requires RunAnswered(root, map[], calls)
    ensures Separated(root, Exec(root, map[], calls))
    decreases |calls|
  {
    if calls == [] {
    } else {
      hide Similarity, EmbeddingOf, TopHits;
      var before, last := calls[..|calls| - 1], calls[|calls| - 1];
      forall i | 0 <= i < |before| ensures Answered(root, Exec(root, map[], before[..i]), before[i]) {
        assert before[..i] == calls[..i];
      }
      RunSeparated(root, before);
      var index := Exec(root, map[], before);
      assert Answered(root, index, last);
      if last.search.Hits? {
        DuplicateIffNear(root, index, last);
        if DedupIndex(root, index, last) != index {
          StoreSeparated(root, index, last.id, EmbeddingOf(root, last.words));
        }
      }
    }
  }

  // ----- Idempotence -----

  /** After a call that ended as a duplicate or was stored, any text that rearranges or repeats the same
      words, under any report id, is found to be a duplicate and changes nothing. */
  lemma SecondCallIsDuplicate(root: real -> real, index: Index, first: Call, second: Call, k: nat)
    requires ExactRoot(root)
    requires Answered(root, index, first)
    requires DedupVerdict(first).Duplicate? || DedupVerdict(first) == Fresh(true)
    requires first.words != [] && Rearranges(first.words, second.words, k)
    requires second.search.Hits? && Answered(root, DedupIndex(root, index, first), second)
    ensures DedupVerdict(second).Duplicate?
    ensures DedupIndex(root, DedupIndex(root, index, first), second) == DedupIndex(root, index, first)
    ensures DedupVerdict(first) == Fresh(true) ==> DedupVerdict(second).bestScore >= 1.0
  {
    hide Similarity, EmbeddingOf, TopHits;
    var e, next := EmbeddingOf(root, first.words), DedupIndex(root, index, first);
    RearrangedTextsCoincide(root, first.words, second.words, k);
    DuplicateIffNear(root, index, first);
    if DedupVerdict(first) == Fresh(true) {
      assert next[first.id] == e && first.id in next;
      assert Similarity(root, e, next[first.id]) >= THRESHOLD;
    } else {
      assert next == index;
    }
    DuplicateIffNear(root, next, second);
  }

  /** A text without words embeds to the zero vector, scores 0 against everything, and is never a duplicate. */
  lemma BlankNeverDuplicate(root: real -> real, index: Index, call: Call)
    requires ExactRoot(root) && Answered(root, index, call) && call.search.Hits? && call.words == []
    ensures !DedupVerdict(call).Duplicate?
  {
    var e := EmbeddingOf(root, []);
    ZeroEnergy(RawEmbedding([]));
    RootPositive(root, Energy(RawEmbedding([])));
    assert e == RawEmbedding([]);
    hide TopHits, EmbeddingOf, Dot;
    DuplicateIffNear(root, index, call);
  }
}
