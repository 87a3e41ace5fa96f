/** What every interleaving of check-in requests, alert requests and the monitor keeps. */
module SafetyProperties {
  import opened Common
  import opened SafetyState

  // ----- Counting events -----

  datatype Kind = AppliedMark | ReportedMark | TriedAlert | InsertedAlert

  /** Is `e` an event of this kind, for check-in `who` (or for any, when None)? */
  predicate Is(e: Event, kind: Kind, who: Option<string>) {
    match kind
    case AppliedMark => e.MarkTried? && Applied(e.outcome) && (who.None? || e.id == who.value)
    case ReportedMark => e.MarkTried? && e.outcome.Done? && (who.None? || e.id == who.value)
    case TriedAlert => e.AlertTried? && (who.None? || e.id == who.value)
    case InsertedAlert => e.AlertTried? && Applied(e.outcome) && (who.None? || e.id == who.value)
  }

  function Count(log: seq<Event>, kind: Kind, who: Option<string>): nat
    decreases |log|
  {
    if log == [] then 0
    else Count(log[..|log| - 1], kind, who) + if Is(log[|log| - 1], kind, who) then 1 else 0
  }

  lemma CountAppend(log: seq<Event>, e: Event, kind: Kind, who: Option<string>)
    ensures Count(log + [e], kind, who) == Count(log, kind, who) + if Is(e, kind, who) then 1 else 0
  {
    assert (log + [e])[..|log|] == log;
  }

  lemma {:induction false} CountZero(log: seq<Event>, kind: Kind, who: Option<string>)
    requires forall j :: 0 <= j < |log| ==> !Is(log[j], kind, who)
    ensures Count(log, kind, who) == 0
    decreases |log|
  {
    if log != [] {
      CountZero(log[..|log| - 1], kind, who);
    }
  }

  lemma {:induction false} CountOrder(log: seq<Event>, who: Option<string>)
    ensures Count(log, ReportedMark, who) <= Count(log, AppliedMark, who)
    ensures Count(log, InsertedAlert, who) <= Count(log, TriedAlert, who)
    decreases |log|
  {
    if log != [] {
      CountOrder(log[..|log| - 1], who);
    }
  }

  // ----- Invariants -----

  /** Rows the monitor has fetched and not yet handled. */
  function Remaining(m: Monitor): seq<Row> {
    if m.Idle? then [] else m.todo
  }

  ghost predicate InSweep(s: State, id: string) {
    exists i :: 0 <= i < |Remaining(s.monitor)| && Remaining(s.monitor)[i].id == id
  }

  /** Fetched rows are distinct known check-ins past their time; requests under way concern known check-ins. */
  ghost predicate SweepInv(s: State) {
    && DistinctIds(Remaining(s.monitor))
    && (forall i :: 0 <= i < |Remaining(s.monitor)| ==>
          var id := Remaining(s.monitor)[i].id; id in s.checkIns && s.checkIns[id].scheduledAt < s.now)
    && (forall call :: call in s.completing ==> s.completing[call].id in s.checkIns)
  }

  /** What a mark event in the history still means now. */
  ghost predicate MarkHolds(s: State, e: Event) {
    e.MarkTried? && Applied(e.outcome) ==>
      && e.id in s.checkIns && s.checkIns[e.id].status != Pending
      && s.checkIns[e.id].scheduledAt < e.at <= s.now
      && !InSweep(s, e.id)
  }

  ghost predicate MarkInv(s: State) {
    forall j :: 0 <= j < |s.log| ==> MarkHolds(s, s.log[j])
  }

  /** What a completion event in the history still means now: a completion time is set and the row has left
      pending; if it was written by the scheduled time, the row is completed and out of the monitor's reach. */
  ghost predicate CompletionHolds(s: State, e: Event) {
    e.CompletionTried? && Applied(e.outcome) ==>
      && e.id in s.checkIns && s.checkIns[e.id].status != Pending && s.checkIns[e.id].completedAt.Some?
      && e.at <= s.now
      && (e.at <= s.checkIns[e.id].scheduledAt ==>
            s.checkIns[e.id].status == Completed && !InSweep(s, e.id)
            && Count(s.log, AppliedMark, Some(e.id)) == 0)
  }

  ghost predicate CompletionInv(s: State) {
    && (forall j :: 0 <= j < |s.log| ==> CompletionHolds(s, s.log[j]))
    && (forall id :: id in s.checkIns && s.checkIns[id].status == Completed ==> s.checkIns[id].completedAt.Some?)
  }

  function AlertingNow(s: State, who: Option<string>): nat {
    if s.monitor.Alerting? && (who.None? || s.monitor.row.id == who.value) then 1 else 0
  }

  ghost predicate CountInv(s: State) {
    && (forall id :: Count(s.log, AppliedMark, Some(id)) <= 1)
    && (forall who :: Count(s.log, TriedAlert, who) + AlertingNow(s, who) == Count(s.log, ReportedMark, who))
  }

  ghost predicate Inv(s: State) {
    SweepInv(s) && MarkInv(s) && CompletionInv(s) && CountInv(s)
  }

  // ----- Each step keeps them -----

  /** How far one step can move a check-in: owner and time stay, it never returns to pending, and a
      completion time once set stays set. */
  lemma StepMoves(s: State, step: Step, id: string)
    ensures id in s.checkIns ==>
      var t := Apply(s, step);
      && id in t.checkIns && t.checkIns[id].scheduledAt == s.checkIns[id].scheduledAt
      && t.checkIns[id].user == s.checkIns[id].user
      && (s.checkIns[id].status != Pending ==> t.checkIns[id].status != Pending)
      && (s.checkIns[id].completedAt.Some? ==> t.checkIns[id].completedAt.Some?)
      && s.now <= t.now
  {
  }

  /** The sweep only loses rows, unless it is a new selection of overdue ones. */
  lemma SweepMoves(s: State, step: Step, id: string)
    ensures InSweep(Apply(s, step), id) ==> InSweep(s, id) || Overdue(s, id)
  {
    var t := Apply(s, step);
    if InSweep(t, id) && t.monitor != s.monitor && !step.SweepSelect? {
      var i :| 0 <= i < |Remaining(t.monitor)| && Remaining(t.monitor)[i].id == id;
      assert Remaining(t.monitor)[i] in Remaining(s.monitor);
    }
  }

  /** The rows still to handle stay, lose their head, are dropped, or are a new selection. */
  lemma SweepShape(s: State, step: Step)
    ensures var before, after := Remaining(s.monitor), Remaining(Apply(s, step).monitor);
      || after == before || after == [] || (before != [] && after == before[1..])
      || (Selectable(s, after) && Apply(s, step).checkIns == s.checkIns && Apply(s, step).now == s.now)
  {
  }

  lemma CompletingKnown(s: State, step: Step, call: nat)
    requires call in s.completing ==> s.completing[call].id in s.checkIns
    ensures var t := Apply(s, step); call in t.completing ==> t.completing[call].id in t.checkIns
  {
  }

  lemma StepSweepInv(s: State, step: Step)
    requires SweepInv(s)
    ensures SweepInv(Apply(s, step))
  {
    var t := Apply(s, step);
    SweepShape(s, step);
    hide Apply;
    var before, after := Remaining(s.monitor), Remaining(t.monitor);
    forall i | 0 <= i < |after|
      ensures var id := after[i].id; id in t.checkIns && t.checkIns[id].scheduledAt < t.now
    {
      StepMoves(s, step, after[i].id);
    }
    forall call | call in t.completing ensures t.completing[call].id in t.checkIns {
      CompletingKnown(s, step, call);
    }
  }

  lemma MarkKept(s: State, step: Step, e: Event)
    requires SweepInv(s) && MarkHolds(s, e)
    ensures MarkHolds(Apply(s, step), e)
  {
    if e.MarkTried? && Applied(e.outcome) {
      StepMoves(s, step, e.id);
      SweepMoves(s, step, e.id);
    }
  }

  lemma NewMark(s: State, step: Step)
    requires SweepInv(s) && |Apply(s, step).log| > |s.log|
    ensures MarkHolds(Apply(s, step), Apply(s, step).log[|s.log|])
  {
  }

  lemma StepMarkInv(s: State, step: Step)
    requires SweepInv(s) && MarkInv(s)
    ensures MarkInv(Apply(s, step))
  {
    var t := Apply(s, step);
    StepLog(s, step);
    hide Apply;
    forall j | 0 <= j < |t.log| ensures MarkHolds(t, t.log[j]) {
      hide MarkHolds, SweepInv;
      if j < |s.log| {
        MarkKept(s, step, s.log[j]);
      } else {
        NewMark(s, step);
      }
    }
  }

  lemma CompletionKept(s: State, step: Step, e: Event)
    requires SweepInv(s) && CompletionHolds(s, e)
    ensures CompletionHolds(Apply(s, step), e)
  {
    hide Apply, Count, InSweep;
    if e.CompletionTried? && Applied(e.outcome) {
      StepMoves(s, step, e.id);
      if e.at <= s.checkIns[e.id].scheduledAt {
        StepOutOfReach(s, step, e.id);
        CompletedStays(s, step, e.id);
      }
    }
  }

  /** Only the monitor can take a completed check-in out of that status, and only from its fetched rows. */
  lemma CompletedStays(s: State, step: Step, id: string)
    requires id in s.checkIns && s.checkIns[id].status == Completed && !InSweep(s, id)
    ensures id in Apply(s, step).checkIns && Apply(s, step).checkIns[id].status == Completed
  {
    if step.SweepMark? && s.monitor.Sweeping? && s.monitor.todo != [] {
      assert Remaining(s.monitor)[0] == s.monitor.todo[0];
    }
  }

  /** A completion event comes from a completing write and from nothing else. */
  lemma CompletionEvent(s: State, step: Step)
    requires |Apply(s, step).log| > |s.log| && Apply(s, step).log[|s.log|].CompletionTried?
    ensures step.CompleteWrite? && step.call in s.completing
    ensures Apply(s, step) == ApplyCompletion(s, step.call, step.stamp, step.outcome)
  {
    hide ApplyCompletion;
  }

  lemma NewCompletion(s: State, step: Step)
    requires SweepInv(s) && MarkInv(s) && |Apply(s, step).log| > |s.log|
    ensures CompletionHolds(Apply(s, step), Apply(s, step).log[|s.log|])
  {
    var t := Apply(s, step);
    var e := t.log[|s.log|];
    if e.CompletionTried? {
      CompletionEvent(s, step);
    }
    hide Apply;
    if e.CompletionTried? && e.at <= t.checkIns[e.id].scheduledAt {
      forall j | 0 <= j < |s.log| ensures !Is(s.log[j], AppliedMark, Some(e.id)) {
        assert MarkHolds(s, s.log[j]);
      }
      CountZero(s.log, AppliedMark, Some(e.id));
      CountAppend(s.log, e, AppliedMark, Some(e.id));
    }
  }

  lemma CompletedHasTime(s: State, step: Step, id: string)
    requires forall i :: i in s.checkIns && s.checkIns[i].status == Completed ==> s.checkIns[i].completedAt.Some?
    ensures var t := Apply(s, step).checkIns; id in t && t[id].status == Completed ==> t[id].completedAt.Some?
  {
  }

  lemma StepCompletionInv(s: State, step: Step)
    requires SweepInv(s) && MarkInv(s) && CompletionInv(s)
    ensures CompletionInv(Apply(s, step))
  {
    var t := Apply(s, step);
    StepLog(s, step);
    hide Apply;
    forall j | 0 <= j < |t.log| ensures CompletionHolds(t, t.log[j]) {
      hide CompletionHolds, SweepInv, MarkInv;
      if j < |s.log| {
        CompletionKept(s, step, s.log[j]);
      } else {
        NewCompletion(s, step);
      }
    }
    forall id | id in t.checkIns && t.checkIns[id].status == Completed ensures t.checkIns[id].completedAt.Some? {
      CompletedHasTime(s, step, id);
    }
  }

  /** A row still in the sweep was never marked before. */
  lemma UnmarkedInSweep(s: State, id: string)
    requires MarkInv(s) && InSweep(s, id)
    ensures Count(s.log, AppliedMark, Some(id)) == 0
  {
    forall j | 0 <= j < |s.log| ensures !Is(s.log[j], AppliedMark, Some(id)) {
      assert MarkHolds(s, s.log[j]);
    }
    CountZero(s.log, AppliedMark, Some(id));
  }

  lemma MarkOnce(s: State, step: Step, id: string)
    requires MarkInv(s) && Count(s.log, AppliedMark, Some(id)) <= 1
    ensures Count(Apply(s, step).log, AppliedMark, Some(id)) <= 1
  {
    StepLog(s, step);
    var t := Apply(s, step);
    if t.log != s.log {
      var e := t.log[|s.log|];
      CountAppend(s.log, e, AppliedMark, Some(id));
      if Is(e, AppliedMark, Some(id)) {
        assert Remaining(s.monitor)[0].id == id;
        UnmarkedInSweep(s, id);
      }
    }
  }

  /** Entering the alerting phase is a reported mark; leaving it is an alert attempt for the same check-in. */
  lemma BalanceStep(s: State, step: Step, who: Option<string>)
    ensures var t := Apply(s, step);
      if |t.log| > |s.log| then
        var e := t.log[|s.log|];
        (if Is(e, TriedAlert, who) then 1 else 0) + AlertingNow(t, who)
        == AlertingNow(s, who) + (if Is(e, ReportedMark, who) then 1 else 0)
      else AlertingNow(t, who) == AlertingNow(s, who)
  {
  }

  lemma AlertBalance(s: State, step: Step, who: Option<string>)
    requires Count(s.log, TriedAlert, who) + AlertingNow(s, who) == Count(s.log, ReportedMark, who)
    ensures var t := Apply(s, step);
      Count(t.log, TriedAlert, who) + AlertingNow(t, who) == Count(t.log, ReportedMark, who)
  {
    hide Apply, Count, AlertingNow, Is;
    StepLog(s, step);
    BalanceStep(s, step, who);
    var t := Apply(s, step);
    if t.log != s.log {
      CountAppend(s.log, t.log[|s.log|], TriedAlert, who);
      CountAppend(s.log, t.log[|s.log|], ReportedMark, who);
    }
  }

  lemma StepInv(s: State, step: Step)
    requires Inv(s)
    ensures Inv(Apply(s, step))
  {
    hide Apply, SweepInv, MarkInv, CompletionInv;
    StepSweepInv(s, step);
    StepMarkInv(s, step);
    StepCompletionInv(s, step);
    forall id ensures Count(Apply(s, step).log, AppliedMark, Some(id)) <= 1 {
      MarkOnce(s, step, id);
    }
    forall who ensures var t := Apply(s, step);
      Count(t.log, TriedAlert, who) + AlertingNow(t, who) == Count(t.log, ReportedMark, who)
    {
      AlertBalance(s, step, who);
    }
  }

  lemma {:induction false} RunInv(s: State, steps: seq<Step>)
    requires Inv(s)
    ensures Inv(Exec(s, steps))
    decreases |steps|
  {
    hide Inv, Apply;
    if steps != [] {
      RunInv(s, steps[..|steps| - 1]);
      StepInv(Exec(s, steps[..|steps| - 1]), steps[|steps| - 1]);
    }
  }

  lemma InitInv(now: Time)
    ensures Inv(Init(now))
  {
  }

  // ----- Results over every run -----

  /** A check-in that has left pending never returns to it; its owner and time never change. */
  lemma {:induction false} NeverPendingAgain(s: State, steps: seq<Step>, id: string)
    requires id in s.checkIns
    ensures var t := Exec(s, steps);
      && id in t.checkIns && t.now >= s.now
      && t.checkIns[id].user == s.checkIns[id].user && t.checkIns[id].scheduledAt == s.checkIns[id].scheduledAt
      && (s.checkIns[id].status != Pending ==> t.checkIns[id].status != Pending)
    decreases |steps|
  {
    hide Apply;
    if steps != [] {
      NeverPendingAgain(s, steps[..|steps| - 1], id);
      StepMoves(Exec(s, steps[..|steps| - 1]), steps[|steps| - 1], id);
    }
  }

  /** Once-only escalation: in every run each check-in is marked missed at most once and causes at most
      one monitor alert, and only after its mark was reported done. */
  lemma EscalatedOnce(now: Time, steps: seq<Step>, id: string)
    ensures var log := Exec(Init(now), steps).log;
      && Count(log, InsertedAlert, Some(id)) <= Count(log, TriedAlert, Some(id))
         <= Count(log, ReportedMark, Some(id)) <= Count(log, AppliedMark, Some(id)) <= 1
  {
    hide Exec, Count, SweepInv, MarkInv, CompletionInv;
    InitInv(now);
    RunInv(Init(now), steps);
    CountOrder(Exec(Init(now), steps).log, Some(id));
  }

  /** Sweep accounting: only check-ins past their scheduled time were ever marked, none of them is pending
      again, and between sweeps every reported mark has had exactly one alert attempt. */
  lemma SweepAccounting(now: Time, steps: seq<Step>)
    ensures var s := Exec(Init(now), steps);
      && (forall j :: 0 <= j < |s.log| && s.log[j].MarkTried? && Applied(s.log[j].outcome) ==>
            var id := s.log[j].id;
            id in s.checkIns && s.checkIns[id].status != Pending && s.checkIns[id].scheduledAt < s.log[j].at <= s.now)
      && (!s.monitor.Alerting? ==> Count(s.log, TriedAlert, None) == Count(s.log, ReportedMark, None))
  {
    hide Exec, Count, SweepInv, CompletionInv;
    InitInv(now);
    RunInv(Init(now), steps);
    var s := Exec(Init(now), steps);
    forall j | 0 <= j < |s.log| && s.log[j].MarkTried? && Applied(s.log[j].outcome)
      ensures var id := s.log[j].id;
        id in s.checkIns && s.checkIns[id].status != Pending && s.checkIns[id].scheduledAt < s.log[j].at <= s.now
    {
      assert MarkHolds(s, s.log[j]);
    }
  }

  /** A completion whose update ran no later than the scheduled time is final: the check-in stays completed and
      is never marked, hence never escalated, in any continuation. What counts is the instant of the update, not
      the earlier clock reading it records. */
  lemma OnTimeIsFinal(now: Time, steps: seq<Step>, j: nat)
    requires var s := Exec(Init(now), steps);
      && j < |s.log| && s.log[j].CompletionTried? && Applied(s.log[j].outcome)
      && s.log[j].id in s.checkIns && s.log[j].at <= s.checkIns[s.log[j].id].scheduledAt
    ensures var s := Exec(Init(now), steps);
      var id := s.log[j].id;
      && s.checkIns[id].status == Completed
      && Count(s.log, AppliedMark, Some(id)) == 0 && Count(s.log, TriedAlert, Some(id)) == 0
  {
    hide Exec, Count, SweepInv;
    InitInv(now);
    RunInv(Init(now), steps);
    EscalatedOnce(now, steps, Exec(Init(now), steps).log[j].id);
    var s := Exec(Init(now), steps);
    var id := s.log[j].id;
    assert CompletionHolds(s, s.log[j]);
  }

  // ----- When a completed check-in can still be overwritten -----

  lemma StepOutOfReach(s: State, step: Step, id: string)
    requires id in s.checkIns && s.checkIns[id].status != Pending && !InSweep(s, id)
    ensures !InSweep(Apply(s, step), id)
    ensures Count(Apply(s, step).log, AppliedMark, Some(id)) == Count(s.log, AppliedMark, Some(id))
  {
    SweepMoves(s, step, id);
    StepLog(s, step);
    var t := Apply(s, step);
    if t.log != s.log {
      var e := t.log[|s.log|];
      CountAppend(s.log, e, AppliedMark, Some(id));
      if e.MarkTried? {
        assert Remaining(s.monitor)[0].id == e.id;
      }
    }
  }

  lemma {:induction false} OutOfReach(s: State, steps: seq<Step>, id: string)
    requires id in s.checkIns && s.checkIns[id].status != Pending && !InSweep(s, id)
    ensures !InSweep(Exec(s, steps), id)
    ensures Count(Exec(s, steps).log, AppliedMark, Some(id)) == Count(s.log, AppliedMark, Some(id))
    decreases |steps|
  {
    hide Apply, Count, InSweep;
    if steps != [] {
      OutOfReach(s, steps[..|steps| - 1], id);
      NeverPendingAgain(s, steps[..|steps| - 1], id);
      StepOutOfReach(Exec(s, steps[..|steps| - 1]), steps[|steps| - 1], id);
    }
  }

  lemma ExecOne(s: State, step: Step)
    ensures Exec(s, [step]) == Apply(s, step)
  {
    ExecStep(s, [], step);
    assert [] + [step] == [step];
  }

  /** The monitor can go on to mark the row at position i. */
  lemma {:induction false} ReachMark(s: State, i: nat) returns (steps: seq<Step>)
    requires SweepInv(s) && s.monitor.Sweeping? && i < |s.monitor.todo|
    ensures var who := Some(s.monitor.todo[i].id);
      Count(Exec(s, steps).log, AppliedMark, who) == Count(s.log, AppliedMark, who) + 1
    decreases i
  {
    var who := Some(s.monitor.todo[i].id);
    if i == 0 {
      steps := [SweepMark(Done)];
      ExecOne(s, SweepMark(Done));
      CountAppend(s.log, MarkTried(who.value, s.now, Done), AppliedMark, who);
    } else {
      var t := Apply(s, SweepSkip);
      StepSweepInv(s, SweepSkip);
      assert t.monitor.todo[i - 1] == s.monitor.todo[i];
      var rest := ReachMark(t, i - 1);
      steps := [SweepSkip] + rest;
      ExecOne(s, SweepSkip);
      ExecConcat(s, [SweepSkip], rest);
    }
  }

  lemma InSweepReachable(s: State, id: string) returns (steps: seq<Step>)
    requires SweepInv(s) && InSweep(s, id)
    ensures Count(Exec(s, steps).log, AppliedMark, Some(id)) == Count(s.log, AppliedMark, Some(id)) + 1
  {
    var i: nat :| i < |Remaining(s.monitor)| && Remaining(s.monitor)[i].id == id;
    if s.monitor.Sweeping? {
      steps := ReachMark(s, i);
    } else {
      var finish := SweepAlert("", Failed(false));
      var t := Apply(s, finish);
      StepSweepInv(s, finish);
      var e := t.log[|s.log|];
      CountAppend(s.log, e, AppliedMark, Some(id));
      var rest := ReachMark(t, i);
      steps := [finish] + rest;
      ExecOne(s, finish);
      ExecConcat(s, [finish], rest);
    }
  }

  ghost predicate CanBeMarked(s: State, id: string) {
    exists steps :: Count(Exec(s, steps).log, AppliedMark, Some(id)) > Count(s.log, AppliedMark, Some(id))
  }

  /** A check-in that is no longer pending (completed, say) can still be overwritten as missed exactly when
      the running sweep had already fetched its row. */
  lemma OverwriteWindow(s: State, id: string)
    requires Inv(s) && id in s.checkIns && s.checkIns[id].status != Pending
    ensures CanBeMarked(s, id) <==> InSweep(s, id)
  {
    hide Exec, Count;
    if InSweep(s, id) {
      var steps := InSweepReachable(s, id);
    } else {
      forall steps ensures Count(Exec(s, steps).log, AppliedMark, Some(id)) == Count(s.log, AppliedMark, Some(id)) {
        OutOfReach(s, steps, id);
      }
    }
  }

  // ----- When a missed check-in can still be overwritten -----

  /** A request that read the check-in as pending has not written yet. */
  ghost predicate UnderWay(s: State, id: string) {
    exists call :: call in s.completing && s.completing[call].id == id
  }

  ghost predicate CanBecomeCompleted(s: State, id: string) {
    exists steps :: IsCompleted(Exec(s, steps), id)
  }

  predicate IsCompleted(s: State, id: string) {
    id in s.checkIns && s.checkIns[id].status == Completed
  }

  lemma StepStaysMissed(s: State, step: Step, id: string)
    requires id in s.checkIns && s.checkIns[id].status == Missed && !UnderWay(s, id)
    ensures id in Apply(s, step).checkIns && Apply(s, step).checkIns[id].status == Missed
    ensures !UnderWay(Apply(s, step), id)
  {
    var t := Apply(s, step);
    assert forall call :: call in s.completing ==> s.completing[call].id != id;
  }

  lemma {:induction false} StaysMissed(s: State, steps: seq<Step>, id: string)
    requires id in s.checkIns && s.checkIns[id].status == Missed && !UnderWay(s, id)
    ensures id in Exec(s, steps).checkIns && Exec(s, steps).checkIns[id].status == Missed
    ensures !UnderWay(Exec(s, steps), id)
    decreases |steps|
  {
    hide Apply, UnderWay;
    if steps != [] {
      StaysMissed(s, steps[..|steps| - 1], id);
      StepStaysMissed(Exec(s, steps[..|steps| - 1]), steps[|steps| - 1], id);
    }
  }

  /** A missed check-in can still be overwritten as completed exactly when a request that read it as pending is
      under way. */
  lemma CompletionWindow(s: State, id: string)
    requires id in s.checkIns && s.checkIns[id].status == Missed
    ensures CanBecomeCompleted(s, id) <==> UnderWay(s, id)
  {
    hide Exec;
    if UnderWay(s, id) {
      var call :| call in s.completing && s.completing[call].id == id;
      ExecOne(s, CompleteWrite(call, s.now, Done));
      assert IsCompleted(Exec(s, [CompleteWrite(call, s.now, Done)]), id);
    } else {
      forall steps ensures !IsCompleted(Exec(s, steps), id) {
        StaysMissed(s, steps, id);
      }
    }
  }
}
