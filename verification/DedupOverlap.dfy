/** `deduplicate_report` calls that overlap on the server: the search and the upsert of a call are separate
    requests, and other calls may act in between. */
module DedupOverlap {
  import opened Common
  import opened Embedding
  import opened Dedup

  /** A call between its search and its upsert; `window` holds the ids upserted since its search. */
  datatype Pending = Pending(id: string, embedding: Embedded, window: set<string>)

  datatype Server = Server(index: Index, pending: map<nat, Pending>)

  datatype Step =
    | SearchStep(call: nat, id: string, words: seq<Hash>, hits: seq<Hit>)
    | UpsertStep(call: nat, outcome: Outcome)

  const EMPTY := Server(map[], map[])

  function Noted(pending: map<nat, Pending>, id: string): map<nat, Pending> {
    map call | call in pending :: pending[call].(window := pending[call].window + {id})
  }

  function Apply(root: real -> real, s: Server, step: Step): Server {
    match step
    case SearchStep(call, id, words, hits) =>
      if call in s.pending || AtLeast(hits, THRESHOLD) != [] then s
      else s.(pending := s.pending[call := Pending(id, EmbeddingOf(root, words), {})])
    case UpsertStep(call, outcome) =>
      if call !in s.pending then s
      else if !Applied(outcome) then s.(pending := s.pending - {call})
      else
        var p := s.pending[call];
        Server(s.index[p.id := p.embedding], Noted(s.pending - {call}, p.id))
  }

  function Overlap(root: real -> real, s: Server, steps: seq<Step>): Server
    decreases |steps|
  {
    if steps == [] then s
    else Apply(root, Overlap(root, s, steps[..|steps| - 1]), steps[|steps| - 1])
  }

  lemma OverlapStep(root: real -> real, s: Server, steps: seq<Step>, k: nat)
    requires k < |steps|
    ensures Overlap(root, s, steps[..k + 1]) == Apply(root, Overlap(root, s, steps[..k]), steps[k])
  {
    assert steps[..k + 1][..k] == steps[..k];
  }

  /** The server after the first `k` steps of a run from the empty index. */
  function After(root: real -> real, steps: seq<Step>, k: nat): Server
    requires k <= |steps|
  {
    Overlap(root, EMPTY, steps[..k])
  }

  /** A search answers according to the index it meets. */
  ghost predicate Obeys(root: real -> real, s: Server, step: Step) {
    step.SearchStep? ==> TopHits(root, s.index, EmbeddingOf(root, step.words), 10, step.hits)
  }

  ghost predicate SearchesObey(root: real -> real, steps: seq<Step>) {
    forall i :: 0 <= i < |steps| ==> Obeys(root, After(root, steps, i), steps[i])
  }

  // ----- The exact condition -----

  /** The stored point `id` was upserted inside the call's window, under another id, and is near its text. */
  predicate NearInWindow(root: real -> real, index: Index, p: Pending, id: string) {
    id in p.window && id in index && id != p.id && Similarity(root, p.embedding, index[id]) >= THRESHOLD
  }

  /** The step applies an upsert although such a point has appeared since its call searched. */
  ghost predicate Collides(root: real -> real, s: Server, step: Step) {
    && step.UpsertStep? && step.call in s.pending && Applied(step.outcome)
    && exists id :: NearInWindow(root, s.index, s.pending[step.call], id)
  }

  ghost predicate NoCollision(root: real -> real, steps: seq<Step>) {
    forall i :: 0 <= i < |steps| ==> !Collides(root, After(root, steps, i), steps[i])
  }

  ghost predicate SeparatedThroughout(root: real -> real, steps: seq<Step>) {
    forall k :: 0 <= k <= |steps| ==> Separated(root, After(root, steps, k).index)
  }

  /** Points near a pending text can only have arrived inside its window. */
  ghost predicate WindowsCover(root: real -> real, s: Server) {
    forall call, id :: call in s.pending && id in s.index && id !in s.pending[call].window ==>
      Similarity(root, s.pending[call].embedding, s.index[id]) < THRESHOLD
  }

  lemma StepWindowsCover(root: real -> real, s: Server, step: Step)
    requires WindowsCover(root, s) && Obeys(root, s, step)
    ensures WindowsCover(root, Apply(root, s, step))
  {
    hide Similarity, EmbeddingOf, TopHits;
    if step.SearchStep? {
      FilteredIffNear(root, s.index, EmbeddingOf(root, step.words), 10, step.hits);
    }
  }

  lemma {:induction false} RunWindowsCover(root: real -> real, steps: seq<Step>, k: nat)
    requires SearchesObey(root, steps) && k <= |steps|
    ensures WindowsCover(root, After(root, steps, k))
  {
    hide Overlap, Apply, Obeys, WindowsCover;
    if k == 0 {
      NothingPending(root, steps);
    } else {
      RunWindowsCover(root, steps, k - 1);
      OverlapStep(root, EMPTY, steps, k - 1);
      StepWindowsCover(root, After(root, steps, k - 1), steps[k - 1]);
    }
  }

  lemma NothingPending(root: real -> real, steps: seq<Step>)
    ensures After(root, steps, 0) == EMPTY && WindowsCover(root, EMPTY) && Separated(root, EMPTY.index)
  {
  }

  /** One step breaks the separation of a separated index exactly when it collides. */
  lemma StepSeparated(root: real -> real, s: Server, step: Step)
    requires WindowsCover(root, s) && Separated(root, s.index)
    ensures Separated(root, Apply(root, s, step).index) <==> !Collides(root, s, step)
  {
    hide Similarity, EmbeddingOf;
    if step.UpsertStep? && step.call in s.pending && Applied(step.outcome) {
      UpsertSeparated(root, s.index, s.pending[step.call]);
    }
  }

  lemma UpsertSeparated(root: real -> real, index: Index, p: Pending)
    requires Separated(root, index)
    requires forall id :: id in index && id !in p.window ==> Similarity(root, p.embedding, index[id]) < THRESHOLD
    ensures Separated(root, index[p.id := p.embedding]) <==> !exists id :: NearInWindow(root, index, p, id)
  {
    hide Similarity;
    var next := index[p.id := p.embedding];
    if id :| NearInWindow(root, index, p, id) {
      assert p.id in next && id in next && next[id] == index[id];
    } else {
      forall a, b | a in next && b in next && a != b
        ensures Similarity(root, next[a], next[b]) < THRESHOLD
      {
        SimilaritySymmetric(root, next[a], next[b]);
        assert !NearInWindow(root, index, p, a) && !NearInWindow(root, index, p, b);
      }
    }
  }

  /** Overlapping calls, exactly: the index is separated throughout a run if and only if no applied upsert finds
      a point that arrived, under another id, since its own search and scores 0.85 or more against its text. */
  lemma SeparatedIffNoCollision(root: real -> real, steps: seq<Step>)
    requires SearchesObey(root, steps)
    ensures SeparatedThroughout(root, steps) <==> NoCollision(root, steps)
  {
    hide After, Apply, Separated, Collides, WindowsCover, SearchesObey;
    if NoCollision(root, steps) {
      forall k | 0 <= k <= |steps| ensures Separated(root, After(root, steps, k).index) {
        SeparatedUpTo(root, steps, k);
      }
    }
    if SeparatedThroughout(root, steps) {
      forall i | 0 <= i < |steps| ensures !Collides(root, After(root, steps, i), steps[i]) {
        RunWindowsCover(root, steps, i);
        AfterStep(root, steps, i);
        StepSeparated(root, After(root, steps, i), steps[i]);
      }
    }
  }

  lemma AfterStep(root: real -> real, steps: seq<Step>, k: nat)
    requires k < |steps|
    ensures After(root, steps, k + 1) == Apply(root, After(root, steps, k), steps[k])
  {
    OverlapStep(root, EMPTY, steps, k);
  }

  lemma {:induction false} SeparatedUpTo(root: real -> real, steps: seq<Step>, k: nat)
    requires SearchesObey(root, steps) && NoCollision(root, steps) && k <= |steps|
    ensures Separated(root, After(root, steps, k).index)
  {
    hide After, Apply, Separated, Collides, WindowsCover, SearchesObey;
    if k == 0 {
      NothingPending(root, steps);
    } else {
      SeparatedUpTo(root, steps, k - 1);
      RunWindowsCover(root, steps, k - 1);
      AfterStep(root, steps, k - 1);
      StepSeparated(root, After(root, steps, k - 1), steps[k - 1]);
    }
  }

  /** A search directly followed by its own upsert is one undivided call. */
  lemma UndividedCall(root: real -> real, s: Server, n: nat, call: Call)
    requires n !in s.pending && call.search.Hits?
    ensures var t := Apply(root, s, SearchStep(n, call.id, call.words, call.search.hits));
      Apply(root, t, UpsertStep(n, call.upsert)).index == DedupIndex(root, s.index, call)
  {
    hide EmbeddingOf, AtLeast;
  }

  /** No upsert of another call lands between the search and the upsert of this one. */
  predicate Undisturbed(s: Server, step: Step) {
    step.UpsertStep? && step.call in s.pending ==> s.pending[step.call].window == {}
  }

  /** In particular, calls whose windows stay empty (calls that run one after the other, say) keep the index
      separated. */
  lemma UndisturbedOverlapSeparated(root: real -> real, steps: seq<Step>)
    requires SearchesObey(root, steps)
    requires forall i :: 0 <= i < |steps| ==> Undisturbed(After(root, steps, i), steps[i])
    ensures SeparatedThroughout(root, steps)
  {
    hide After, SearchesObey, SeparatedThroughout;
    SeparatedIffNoCollision(root, steps);
    forall i | 0 <= i < |steps| ensures !Collides(root, After(root, steps, i), steps[i]) {
      assert Undisturbed(After(root, steps, i), steps[i]);
    }
  }

  /** The window matters: two calls with the same text that both search before either stores leave two
      points with cosine 1, although every search obeyed its contract. */
  lemma OverlapBreaksSeparation(root: real -> real, words: seq<Hash>) returns (steps: seq<Step>)
    requires ExactRoot(root) && words != []
    ensures SearchesObey(root, steps)
    ensures !Separated(root, After(root, steps, |steps|).index)
  {
    steps := Race(words);
    assert Repeat(words, 1) == words by { assert Repeat(words, 0) + words == words; }
    RearrangedTextsCoincide(root, words, words, 1);
    hide Similarity, EmbeddingOf, Overlap, Apply, Repeat, Rearranges;
    RunTheRace(root, words);
    TwinsNotSeparated(root, After(root, steps, 4).index, EmbeddingOf(root, words));
  }

  function Race(words: seq<Hash>): seq<Step> {
    [SearchStep(0, "a", words, []), SearchStep(1, "b", words, []), UpsertStep(0, Done), UpsertStep(1, Done)]
  }

  lemma TwinsNotSeparated(root: real -> real, index: Index, e: Embedded)
    requires index == map["a" := e, "b" := e] && Similarity(root, e, e) == 1.0
    ensures !Separated(root, index)
  {
    hide Similarity;
    assert "a" in index && "b" in index && "a" != "b";
  }

  lemma RunTheRace(root: real -> real, words: seq<Hash>)
    ensures var steps := Race(words);
      && After(root, steps, 0).index == map[] && After(root, steps, 1).index == map[]
      && After(root, steps, 4).index == map["a" := EmbeddingOf(root, words), "b" := EmbeddingOf(root, words)]
  {
    hide EmbeddingOf, After;
    var steps := Race(words);
    NothingPending(root, steps);
    AfterStep(root, steps, 0);
    AfterStep(root, steps, 1);
    AfterStep(root, steps, 2);
    AfterStep(root, steps, 3);
  }
}
