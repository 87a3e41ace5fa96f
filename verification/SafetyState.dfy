/** The check-in and emergency-alert tables as a state machine. Every database statement is one
    atomic step; user requests and the single background monitor interleave statement by statement. */
module SafetyState {
  import opened Common

  type Time = int

  datatype CheckInStatus = Pending | Completed | Missed | Cancelled

  datatype CheckIn = CheckIn(user: string, scheduledAt: Time, status: CheckInStatus, completedAt: Option<Time>)

  datatype AlertKind = General | Safety | Medical | Legal

  datatype AlertStatus = Active | Resolved | FalseAlarm

  datatype Alert = Alert(user: string, kind: AlertKind, status: AlertStatus,
                         resolvedBy: Option<string>, resolvedAt: Option<Time>)

  /** A row returned by the monitor's query. */
  datatype Row = Row(id: string, user: string)

  /** Where the monitor stands: between ticks, at the head of its row loop, or between marking a row
      and raising its alert. */
  datatype Monitor = Idle | Sweeping(todo: seq<Row>) | Alerting(row: Row, todo: seq<Row>)

  /** History of the statements that matter to the properties. `at` is the clock when the statement ran; `stamp`
      is the earlier reading of the clock that it wrote into the row. */
  datatype Event =
    | CompletionTried(id: string, user: string, at: Time, stamp: Time, outcome: Outcome)
    | MarkTried(id: string, at: Time, outcome: Outcome)
    | AlertTried(id: string, alert: string, outcome: Outcome)
    | ResolveApplied(call: nat, alert: string, resolver: string, stamp: Time)
    | ResolveReturned(call: nat, alert: string, row: Alert)

  /** A completion that read its check-in and has not written yet: which one, and on whose behalf. */
  datatype Request = Request(id: string, user: string)

  /** `completing` and `resolving` hold the requests that are between their two statements. */
  datatype State = State(now: Time, checkIns: map<string, CheckIn>, alerts: map<string, Alert>,
                         completing: map<nat, Request>, resolving: map<nat, string>,
                         monitor: Monitor, log: seq<Event>)

  datatype Step =
    | Tick(to: Time)
    | Schedule(id: string, user: string, at: Time, checkedAt: Time, outcome: Outcome)
    | CompleteRead(call: nat, id: string, user: string)
    | CompleteWrite(call: nat, stamp: Time, outcome: Outcome)
    | SweepSelect(rows: seq<Row>)
    | SweepSkip
    | SweepMark(outcome: Outcome)
    | SweepAlert(alert: string, outcome: Outcome)
    | SweepEnd
    | Trigger(alert: string, user: string, kind: AlertKind, outcome: Outcome)
    | ResolveWrite(call: nat, alert: string, resolver: string, stamp: Time, outcome: Outcome)
    | ResolveRead(call: nat)

  predicate IsMonitorStep(step: Step) {
    step.SweepSelect? || step.SweepSkip? || step.SweepMark? || step.SweepAlert? || step.SweepEnd?
  }

  function Init(now: Time): State {
    State(now, map[], map[], map[], map[], Idle, [])
  }

  predicate Overdue(s: State, id: string) {
    id in s.checkIns && s.checkIns[id].status == Pending && s.checkIns[id].scheduledAt < s.now
  }

  predicate DistinctIds(rows: seq<Row>) {
    forall i, j :: 0 <= i < j < |rows| ==> rows[i].id != rows[j].id
  }

  /** SKIP LOCKED: the query may return any of the overdue pending rows. */
  predicate Selectable(s: State, rows: seq<Row>) {
    && DistinctIds(rows)
    && forall i :: 0 <= i < |rows| ==> Overdue(s, rows[i].id) && rows[i].user == s.checkIns[rows[i].id].user
  }

  function Insert(s: State, alert: string, user: string, kind: AlertKind, outcome: Outcome): map<string, Alert> {
    if alert !in s.alerts && Applied(outcome) then s.alerts[alert := Alert(user, kind, Active, None, None)]
    else s.alerts
  }

  /** A duplicate key makes an insert fail whatever else happens. */
  function InsertOutcome(s: State, alert: string, outcome: Outcome): Outcome {
    if alert in s.alerts then Failed(false) else outcome
  }

  /** UPDATE check_ins SET status = 'completed' ... WHERE id: unconditional on the current status. */
  function WriteCompleted(s: State, id: string, stamp: Time): map<string, CheckIn>
    requires id in s.checkIns
  {
    s.checkIns[id := s.checkIns[id].(status := Completed, completedAt := Some(stamp))]
  }

  /** UPDATE check_ins SET status = 'missed' ... WHERE id: unconditional, `completed_at` is left as it is. */
  function WriteMissed(s: State, id: string): map<string, CheckIn>
    requires id in s.checkIns
  {
    s.checkIns[id := s.checkIns[id].(status := Missed)]
  }

  function ApplyCompletion(s: State, call: nat, stamp: Time, outcome: Outcome): State
    requires call in s.completing
  {
    var id := s.completing[call].id;
    s.(checkIns := if Applied(outcome) && id in s.checkIns then WriteCompleted(s, id, stamp) else s.checkIns,
    completing := s.completing - {call},
    log := s.log + [CompletionTried(id, s.completing[call].user, s.now, stamp, outcome)])
  }

  function ApplyMark(s: State, outcome: Outcome): State
    requires s.monitor.Sweeping? && s.monitor.todo != []
  {
    var row, rest := s.monitor.todo[0], s.monitor.todo[1..];
    s.(checkIns := if Applied(outcome) && row.id in s.checkIns then WriteMissed(s, row.id) else s.checkIns,
    monitor := if outcome.Done? then Alerting(row, rest) else Sweeping(rest),
    log := s.log + [MarkTried(row.id, s.now, outcome)])
  }

  /** UPDATE emergency_alerts ... WHERE id AND status = 'active'. */
  function ApplyResolve(s: State, call: nat, alert: string, resolver: string, stamp: Time): State {
    if alert !in s.alerts then s
    else
      var row := s.alerts[alert];
      s.(alerts := if row.status == Active
         then s.alerts[alert := row.(status := Resolved, resolvedBy := Some(resolver), resolvedAt := Some(stamp))]
         else s.alerts,
      log := s.log + [ResolveApplied(call, alert, resolver, stamp)])
  }

  /** One step. A step that does not apply leaves the state alone, so every sequence of steps is a run. */
  function Apply(s: State, step: Step): State {
    match step
    case Tick(to) => if to > s.now then s.(now := to) else s
    case Schedule(id, user, at, checkedAt, outcome) =>
      if checkedAt > s.now || at < checkedAt || id in s.checkIns || !Applied(outcome) then s
      else s.(checkIns := s.checkIns[id := CheckIn(user, at, Pending, None)])
    case CompleteRead(call, id, user) =>
      if call in s.completing || id !in s.checkIns || s.checkIns[id].user != user
         || s.checkIns[id].status != Pending then s
      else s.(completing := s.completing[call := Request(id, user)])
    case CompleteWrite(call, stamp, outcome) =>
      if call !in s.completing || stamp > s.now then s else ApplyCompletion(s, call, stamp, outcome)
    case SweepSelect(rows) =>
      if !s.monitor.Idle? || !Selectable(s, rows) then s else s.(monitor := Sweeping(rows))
    case SweepSkip =>
      if !s.monitor.Sweeping? || s.monitor.todo == [] then s else s.(monitor := Sweeping(s.monitor.todo[1..]))
    case SweepMark(outcome) =>
      if !s.monitor.Sweeping? || s.monitor.todo == [] then s else ApplyMark(s, outcome)
    case SweepAlert(alert, outcome) =>
      if !s.monitor.Alerting? then s
      else s.(alerts := Insert(s, alert, s.monitor.row.user, Safety, outcome),
         monitor := Sweeping(s.monitor.todo),
         log := s.log + [AlertTried(s.monitor.row.id, alert, InsertOutcome(s, alert, outcome))])
    case SweepEnd => if !s.monitor.Sweeping? then s else s.(monitor := Idle)
    case Trigger(alert, user, kind, outcome) => s.(alerts := Insert(s, alert, user, kind, outcome))
    case ResolveWrite(call, alert, resolver, stamp, outcome) =>
      if call in s.resolving || stamp > s.now then s
      else
        var t := if Applied(outcome) then ApplyResolve(s, call, alert, resolver, stamp) else s;
        if outcome.Done? then t.(resolving := t.resolving[call := alert]) else t
    case ResolveRead(call) =>
      if call !in s.resolving then s
      else
        var alert := s.resolving[call];
        s.(resolving := s.resolving - {call},
        log := if alert in s.alerts then s.log + [ResolveReturned(call, alert, s.alerts[alert])] else s.log)
  }

  /** The history grows by at most one event. */
  lemma StepLog(s: State, step: Step)
    ensures var t := Apply(s, step);
      t.log == s.log || (|t.log| == |s.log| + 1 && t.log == s.log + [t.log[|s.log|]])
  {
  }

  /** What the requests refuse: a time already past, someone else's check-in, one that is not pending. */
  lemma RefusedRequests(s: State, step: Step)
    ensures step.Schedule? && step.at < step.checkedAt ==> Apply(s, step) == s
    ensures step.CompleteRead? && step.id in s.checkIns ==>
      s.checkIns[step.id].user != step.user || s.checkIns[step.id].status != Pending ==> Apply(s, step) == s
  {
  }

  function Exec(s: State, steps: seq<Step>): State
    decreases |steps|
  {
    if steps == [] then s else Apply(Exec(s, steps[..|steps| - 1]), steps[|steps| - 1])
  }

  lemma ExecStep(s: State, steps: seq<Step>, step: Step)
    ensures Exec(s, steps + [step]) == Apply(Exec(s, steps), step)
  {
    assert (steps + [step])[..|steps|] == steps;
  }

  lemma {:induction false} ExecConcat(s: State, a: seq<Step>, b: seq<Step>)
    ensures Exec(s, a + b) == Exec(Exec(s, a), b)
    decreases |b|
  {
    hide Apply;
    if b == [] {
      assert a + b == a;
    } else {
      var front, last := b[..|b| - 1], b[|b| - 1];
      ExecConcat(s, a, front);
      ExecStep(s, a + front, last);
      assert a + front + [last] == a + b;
      ExecStep(Exec(s, a), front, last);
      assert front + [last] == b;
    }
  }
}
