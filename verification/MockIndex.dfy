/** The Go Qdrant client: remote calls, the latched fallback to an in-memory index, and the
    duplicate search of the registry built on it. Calls run concurrently (every submitted report
    stores its vector from its own goroutine), so the client is a state machine whose steps are
    the points where a call reads the mode flag, receives the remote answer, and holds the lock. */
module MockIndex {
  import opened Common
  import opened Vectors
  import opened CosineScore
  import opened HashVector
  import opened SelfSimilarity

  datatype Point = Point(id: string, vector: Vec, payload: map<string, string>)

  datatype Request = Store(point: Point) | Search(query: Vec, limit: nat)

  /** What the remote side does: the request could not be built, nobody answered, or an answer
      with a status and, for a search, the decoded hits (None when the body does not decode). */
  datatype Reply = Unsent | Unreachable | Responded(status: nat, hits: Option<seq<Point>>)

  /** A call that read `mockMode == false` is Calling; one that goes to the in-memory index is Local. */
  datatype Phase = Calling(request: Request) | Local(request: Request)

  datatype Event =
    | StoredLocally(point: Point)
    | StoredRemotely(point: Point)
    | FoundLocally(query: Vec, limit: nat, points: seq<Point>)
    | FoundRemotely(query: Vec, answer: seq<Point>, points: seq<Point>)
    | CallFailed(request: Request)

  datatype Client = Client(mock: bool, data: seq<Point>, calls: map<nat, Phase>, log: seq<Event>)

  datatype Step = Begin(call: nat, request: Request) | Answer(call: nat, reply: Reply) | Finish(call: nat)

  const FRESH := Client(false, [], map[], [])

  predicate Passes(query: Vec, p: Point) {
    Cosine(query, p.vector) > 0.7
  }

  /** The points among the first `n` that pass the threshold, in insertion order. */
  function Matches(data: seq<Point>, query: Vec, n: nat): seq<Point>
    requires n <= |data|
  {
    if n == 0 then []
    else Matches(data, query, n - 1) + if Passes(query, data[n - 1]) then [data[n - 1]] else []
  }

  function Take(points: seq<Point>, limit: nat): seq<Point> {
    if |points| > limit then points[..limit] else points
  }

  function FirstMatches(data: seq<Point>, query: Vec, limit: nat): seq<Point> {
    Take(Matches(data, query, |data|), limit)
  }

  /** Remote hits carry no vector. */
  function WithoutVectors(hits: seq<Point>): seq<Point> {
    seq(|hits|, i requires 0 <= i < |hits| => hits[i].(vector := []))
  }

  /** The points handed on for a remote answer: each hit in turn, with its id and payload and no vector. */
  predicate HandedOn(answer: seq<Point>, points: seq<Point>) {
    && |points| == |answer|
    && forall i :: 0 <= i < |answer| ==>
      points[i].id == answer[i].id && points[i].payload == answer[i].payload && points[i].vector == []
  }

  function RemoteEvent(request: Request, status: nat, hits: Option<seq<Point>>): Event {
    if status >= 400 then CallFailed(request)
    else match request
      case Store(point) => StoredRemotely(point)
      case Search(query, _) =>
        if hits.None? then CallFailed(request) else FoundRemotely(query, hits.value, WithoutVectors(hits.value))
  }

  /** One atomic step; a step that does not apply leaves the state alone, so every sequence of
      steps is a run. */
  function Apply(s: Client, step: Step): Client {
    match step
    case Begin(call, request) =>
      if call in s.calls then s
      else s.(calls := s.calls[call := if s.mock then Local(request) else Calling(request)])
    case Answer(call, reply) =>
      if call !in s.calls || s.calls[call].Local? then s
      else
        var request := s.calls[call].request;
        (match reply
         case Unreachable => s.(mock := true, calls := s.calls[call := Local(request)])
         case Unsent => s.(calls := s.calls - {call}, log := s.log + [CallFailed(request)])
         case Responded(status, hits) =>
           s.(calls := s.calls - {call}, log := s.log + [RemoteEvent(request, status, hits)]))
    case Finish(call) =>
      if call !in s.calls || s.calls[call].Calling? then s
      else
        (match s.calls[call].request
         case Store(point) =>
           s.(data := s.data + [point], calls := s.calls - {call}, log := s.log + [StoredLocally(point)])
         case Search(query, limit) =>
           s.(calls := s.calls - {call},
           log := s.log + [FoundLocally(query, limit, FirstMatches(s.data, query, limit))]))
  }

  function Exec(s: Client, steps: seq<Step>): Client
    decreases |steps|
  {
    if steps == [] then s else Apply(Exec(s, steps[..|steps| - 1]), steps[|steps| - 1])
  }

  // ----- The search result, independently of how it is computed -----

  lemma {:induction false} MatchesGrow(data: seq<Point>, query: Vec, i: nat, n: nat)
    requires i <= n <= |data|
    ensures Matches(data, query, i) <= Matches(data, query, n)
  {
    if i == n {
    } else {
      MatchesGrow(data, query, i, n - 1);
    }
  }

  lemma {:induction false} MatchSource(data: seq<Point>, query: Vec, n: nat, k: nat) returns (i: nat)
    requires n <= |data| && k < |Matches(data, query, n)|
    ensures i < n && Passes(query, data[i]) && |Matches(data, query, i)| == k
    ensures Matches(data, query, n)[k] == data[i]
  {
    if k < |Matches(data, query, n - 1)| {
      i := MatchSource(data, query, n - 1, k);
    } else {
      i := n - 1;
    }
  }

  /** The positions before `n` whose points score above 0.7. */
  function Passing(data: seq<Point>, query: Vec, n: nat): set<nat>
    requires n <= |data|
  {
    set m: nat | m < n && Cosine(query, data[m].vector) > 0.7
  }

  lemma {:induction false} MatchesCount(data: seq<Point>, query: Vec, n: nat)
    requires n <= |data|
    ensures |Matches(data, query, n)| == |Passing(data, query, n)|
  {
    if n == 0 {
    } else {
      hide Cosine, Passing;
      MatchesCount(data, query, n - 1);
      PassingStep(data, query, n);
    }
  }

  lemma PassingStep(data: seq<Point>, query: Vec, n: nat)
    requires 0 < n <= |data|
    ensures |Passing(data, query, n)|
         == |Passing(data, query, n - 1)| + if Cosine(query, data[n - 1].vector) > 0.7 then 1 else 0
  {
    hide Cosine;
    if Cosine(query, data[n - 1].vector) > 0.7 {
      assert Passing(data, query, n) == Passing(data, query, n - 1) + {n - 1};
    } else {
      assert Passing(data, query, n) == Passing(data, query, n - 1);
    }
  }

  /** Point `i` scores above 0.7 and exactly `k` earlier points do. */
  predicate IsMatch(data: seq<Point>, query: Vec, i: nat, k: nat) {
    i < |data| && Cosine(query, data[i].vector) > 0.7 && |Passing(data, query, i)| == k
  }

  /** A search returns exactly the first `limit` passing points in insertion order: match number k
      is result k for every k below the limit ... */
  lemma FirstMatchesExact(data: seq<Point>, query: Vec, limit: nat, i: nat, k: nat)
    requires IsMatch(data, query, i, k) && k < limit
    ensures k < |FirstMatches(data, query, limit)| && FirstMatches(data, query, limit)[k] == data[i]
  {
    hide Cosine;
    MatchesCount(data, query, i);
    assert Passes(query, data[i]);
    hide Passes, Passing;
    MatchesGrow(data, query, i + 1, |data|);
    assert Matches(data, query, i + 1) == Matches(data, query, i) + [data[i]];
  }

  /** ... and every result is such a match. */
  lemma OnlyMatchesFound(data: seq<Point>, query: Vec, limit: nat, k: nat) returns (i: nat)
    requires k < |FirstMatches(data, query, limit)|
    ensures k < limit && IsMatch(data, query, i, k) && FirstMatches(data, query, limit)[k] == data[i]
  {
    hide Cosine;
    i := MatchSource(data, query, |data|, k);
    MatchesCount(data, query, i);
  }

  // ----- Runs -----

  /** Points stored in memory so far, read off the history. */
  function LocalPoints(log: seq<Event>): seq<Point> {
    if log == [] then []
    else
      var last := log[|log| - 1];
      LocalPoints(log[..|log| - 1]) + if last.StoredLocally? then [last.point] else []
  }

  /** Every remote search handed on what the remote side answered. */
  ghost predicate RemoteFaithful(log: seq<Event>) {
    forall j :: 0 <= j < |log| && log[j].FoundRemotely? ==> HandedOn(log[j].answer, log[j].points)
  }

  /** Every local search answered with the first matches among the points stored before it. */
  ghost predicate SearchesExact(log: seq<Event>) {
    forall j :: 0 <= j < |log| && log[j].FoundLocally? ==>
      log[j].points == FirstMatches(LocalPoints(log[..j]), log[j].query, log[j].limit)
  }

  lemma SearchesExactAppend(log: seq<Event>, e: Event)
    requires SearchesExact(log)
    requires e.FoundLocally? ==> e.points == FirstMatches(LocalPoints(log), e.query, e.limit)
    ensures SearchesExact(log + [e])
    ensures LocalPoints(log + [e]) == LocalPoints(log) + if e.StoredLocally? then [e.point] else []
  {
    hide FirstMatches;
    var more := log + [e];
    assert more[..|log|] == log;
    forall j | 0 <= j < |more| && more[j].FoundLocally?
      ensures more[j].points == FirstMatches(LocalPoints(more[..j]), more[j].query, more[j].limit)
    {
      assert more[..j] == log[..j];
    }
  }

  /** In-memory data is exactly the local stores in order, local searches are exact, and the memory
      is used only after the fallback. */
  ghost predicate Consistent(s: Client) {
    && s.data == LocalPoints(s.log)
    && SearchesExact(s.log) && RemoteFaithful(s.log)
    && (!s.mock ==> s.data == [] && forall call :: call in s.calls ==> s.calls[call].Calling?)
  }

  lemma StepConsistent(s: Client, step: Step)
    requires Consistent(s)
    ensures Consistent(Apply(s, step))
    ensures s.log <= Apply(s, step).log && s.data <= Apply(s, step).data
  {
    hide FirstMatches, LocalPoints, SearchesExact;
    var t := Apply(s, step);
    if t.log != s.log {
      SearchesExactAppend(s.log, t.log[|s.log|]);
    }
  }

  /** What one remote answer to a search does: its hits are recorded and handed on, unless the status is an error or
      the body does not decode. */
  lemma RemoteAnswer(s: Client, call: nat, status: nat, hits: Option<seq<Point>>)
    requires call in s.calls && s.calls[call].Calling? && s.calls[call].request.Search?
    ensures var t := Apply(s, Answer(call, Responded(status, hits)));
      && |t.log| == |s.log| + 1 && t.mock == s.mock && t.data == s.data
      && (t.log[|s.log|].FoundRemotely? <==> status < 400 && hits.Some?)
      && (status < 400 && hits.Some? ==>
            var e := t.log[|s.log|];
            e.query == s.calls[call].request.query && e.answer == hits.value && HandedOn(hits.value, e.points))
  {
  }

  /** What one remote answer to a store does: recorded as stored remotely, and nothing in memory, unless the status is
      an error. */
  lemma RemoteStore(s: Client, call: nat, status: nat, hits: Option<seq<Point>>)
    requires call in s.calls && s.calls[call].Calling? && s.calls[call].request.Store?
    ensures var t, request := Apply(s, Answer(call, Responded(status, hits))), s.calls[call].request;
      && t.mock == s.mock && t.data == s.data
      && t.log == s.log + [if status < 400 then StoredRemotely(request.point) else CallFailed(request)]
  {
  }

  /** Every interleaving of any number of calls keeps the client consistent; history only grows. */
  lemma {:induction false} RunConsistent(s: Client, steps: seq<Step>)
    requires Consistent(s)
    ensures Consistent(Exec(s, steps))
    ensures s.log <= Exec(s, steps).log && s.data <= Exec(s, steps).data
    decreases |steps|
  {
    hide Consistent, Apply;
    if steps != [] {
      RunConsistent(s, steps[..|steps| - 1]);
      StepConsistent(Exec(s, steps[..|steps| - 1]), steps[|steps| - 1]);
    }
  }

  predicate NoneCalling(s: Client) {
    forall call :: call in s.calls ==> s.calls[call].Local?
  }

  /** The fallback is latched: once in mock mode with no remote request outstanding, no later step
      leaves mock mode, reaches the remote side, or fails. */
  lemma {:induction false} FallbackLatched(s: Client, steps: seq<Step>)
    requires s.mock
    ensures Exec(s, steps).mock
    ensures NoneCalling(s) ==> NoneCalling(Exec(s, steps))
    ensures NoneCalling(s) ==> |s.log| <= |Exec(s, steps).log|
    ensures NoneCalling(s) ==> forall j :: |s.log| <= j < |Exec(s, steps).log| ==>
      Exec(s, steps).log[j].StoredLocally? || Exec(s, steps).log[j].FoundLocally?
    decreases |steps|
  {
    hide FirstMatches;
    if steps != [] {
      FallbackLatched(s, steps[..|steps| - 1]);
    }
  }

  lemma {:induction false} LocalPointAt(log: seq<Event>, i: nat)
    requires i < |log| && log[i].StoredLocally?
    ensures |LocalPoints(log[..i])| < |LocalPoints(log)|
    ensures LocalPoints(log)[|LocalPoints(log[..i])|] == log[i].point
    ensures LocalPoints(log[..i]) <= LocalPoints(log)
    decreases |log|
  {
    if i == |log| - 1 {
    } else {
      assert log[..|log| - 1][..i] == log[..i];
      LocalPointAt(log[..|log| - 1], i);
    }
  }

  lemma PassingOfPrefix(data: seq<Point>, more: seq<Point>, query: Vec)
    requires data <= more
    ensures Passing(data, query, |data|) == Passing(more, query, |data|)
  {
    hide Cosine;
  }

  lemma MatchesPass(data: seq<Point>, query: Vec, limit: nat, p: Point)
    requires p in FirstMatches(data, query, limit)
    ensures Passes(query, p)
  {
    hide Cosine, Matches, Passing;
    var k: nat :| k < |FirstMatches(data, query, limit)| && FirstMatches(data, query, limit)[k] == p;
    var i := OnlyMatchesFound(data, query, limit, k);
  }

  /** Re-submission, over every run: if a report was stored in memory (log position i) and the same text
      is searched later (position j) with fewer than five passing points stored before it, the stored
      point is among the results exactly when the text's weight is between 1 and MAX_WEIGHT. */
  lemma ResubmittedTextFound(steps: seq<Step>, text: seq<Byte>, i: nat, j: nat)
    requires var log := Exec(FRESH, steps).log;
      && i < j < |log|
      && log[i].StoredLocally? && log[i].point.vector == HashOf(text)
      && log[j].FoundLocally? && log[j].query == HashOf(text) && log[j].limit == 5
      && |Passing(LocalPoints(log[..i]), HashOf(text), |LocalPoints(log[..i])|)| < 5
    ensures var log := Exec(FRESH, steps).log;
      log[i].point in log[j].points <==> 1 <= Weight(text) <= MAX_WEIGHT
  {
    hide Exec, Apply, Cosine, HashOf, Weight, RemoteEvent, Passing;
    RunConsistent(FRESH, steps);
    var log := Exec(FRESH, steps).log;
    var q, p := HashOf(text), log[i].point;
    var earlier, data := LocalPoints(log[..i]), LocalPoints(log[..j]);
    ReportMatchesItself(text);
    assert log[..j][..i] == log[..i];
    LocalPointAt(log[..j], i);
    assert earlier <= data && data[|earlier|] == p;
    assert log[j].points == FirstMatches(data, q, 5);
    PassingOfPrefix(earlier, data, q);
    if 1 <= Weight(text) <= MAX_WEIGHT {
      FirstMatchesExact(data, q, 5, |earlier|, |Passing(earlier, q, |earlier|)|);
    } else if p in log[j].points {
      MatchesPass(data, q, 5, p);
    }
  }

  // ----- The client object -----

  class QdrantClient {
    var mockMode: bool
    var mockData: seq<Point>
    ghost var log: seq<Event>

    ghost function State(): Client
      reads this
    {
      Client(mockMode, mockData, map[], log)
    }

    constructor ()
      ensures State() == FRESH
    {
      mockMode, mockData, log := false, [], [];
    }

    /** The three steps of one call that runs alone. */
    static ghost function Alone(request: Request, reply: Reply): seq<Step> {
      [Begin(0, request), Answer(0, reply), Finish(0)]
    }

    static lemma AloneExec(s: Client, request: Request, reply: Reply)
      ensures Exec(s, Alone(request, reply))
           == Apply(Apply(Apply(s, Begin(0, request)), Answer(0, reply)), Finish(0))
    {
      hide Apply;
      var a := Alone(request, reply);
      assert a[..2][..1] == a[..1] && a[..1] == [a[0]] && a[..1][..0] == [];
      assert Exec(s, a[..1]) == Apply(s, a[0]);
      assert Exec(s, a[..2]) == Apply(Exec(s, a[..1]), a[1]);
    }

    /** `StoreEmbedding`: append in mock mode; otherwise call out, and on no answer latch mock mode
        and call itself again. `reply` is the remote side's behaviour for this call. */
    method StoreEmbedding(point: Point, reply: Reply) returns (ok: bool)
      modifies this
      ensures State() == Exec(old(State()), Alone(Store(point), reply))
      ensures ok <==> old(mockMode) || reply.Unreachable? || (reply.Responded? && reply.status < 400)
      ensures mockMode == (old(mockMode) || reply.Unreachable?)
      ensures mockData == if mockMode then old(mockData) + [point] else old(mockData)
      decreases !mockMode
    {
      AloneExec(State(), Store(point), reply);
      if mockMode {
        mockData := mockData + [point];
        log := log + [StoredLocally(point)];
        return true;
      }
      match reply
      case Unsent =>
        log := log + [CallFailed(Store(point))];
        return false;
      case Unreachable =>
        mockMode := true;
        AloneExec(State(), Store(point), reply);
        ok := StoreEmbedding(point, reply);
      case Responded(status, hits) =>
        log := log + [RemoteEvent(Store(point), status, hits)];
        return status < 400;
    }

    /** `SearchSimilar`: in mock mode scan the points in order, keep those above 0.7, cut to `limit`. */
    method SearchSimilar(query: Vec, limit: nat, reply: Reply) returns (found: Option<seq<Point>>)
      modifies this
      ensures State() == Exec(old(State()), Alone(Search(query, limit), reply))
      ensures mockMode == (old(mockMode) || reply.Unreachable?) && mockData == old(mockData)
      ensures mockMode ==> found == Some(FirstMatches(mockData, query, limit))
      ensures !mockMode ==> (found.Some? <==> reply.Responded? && reply.status < 400 && reply.hits.Some?)
      ensures !mockMode && found.Some? ==> HandedOn(reply.hits.value, found.value)
      decreases !mockMode
    {
      hide Cosine;
      AloneExec(State(), Search(query, limit), reply);
      if mockMode {
        ghost var before := State();
        var results: seq<Point> := [];
        for i := 0 to |mockData|
          invariant State() == before
          invariant results == Matches(mockData, query, i)
        {
          var sim := CosineSimilarity(query, mockData[i].vector);
          if sim > 0.7 {
            results := results + [mockData[i]];
          }
        }
        if |results| > limit {
          results := results[..limit];
        }
        log := log + [FoundLocally(query, limit, results)];
        return Some(results);
      }
      match reply
      case Unsent =>
        log := log + [CallFailed(Search(query, limit))];
        return None;
      case Unreachable =>
        mockMode := true;
        AloneExec(State(), Search(query, limit), reply);
        found := SearchSimilar(query, limit, reply);
      case Responded(status, hits) =>
        log := log + [RemoteEvent(Search(query, limit), status, hits)];
        if status >= 400 || hits.None? {
          return None;
        }
        return Some(WithoutVectors(hits.value));
    }
  }

  /** `FindDuplicates`: hash the identifier followed by the description and ask for five points.
      Without a client there is nothing to search. */
  method FindDuplicates(client: QdrantClient?, identifier: seq<Byte>, description: seq<Byte>, reply: Reply)
    returns (found: Option<seq<Point>>)
    modifies client
    ensures client == null ==> found == Some([])
    ensures client != null && client.mockMode ==>
      found == Some(FirstMatches(old(client.mockData), HashOf(identifier + description), 5))
    ensures client != null && reply.Unreachable? ==>
      found == Some(FirstMatches(old(client.mockData), HashOf(identifier + description), 5))
    ensures client != null && !old(client.mockMode) && !reply.Unreachable? ==>
      && (found.Some? <==> reply.Responded? && reply.status < 400 && reply.hits.Some?)
      && (found.Some? ==> HandedOn(reply.hits.value, found.value))
    ensures client != null ==>
      client.State() == Exec(old(client.State()),
        QdrantClient.Alone(Search(HashOf(identifier + description), 5), reply))
  {
    if client == null {
      return Some([]);
    }
    var vector := HashToVector(identifier + description);
    found := client.SearchSimilar(vector, 5, reply);
  }
}
