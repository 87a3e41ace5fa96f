/** The check-in and emergency services as methods over the tables. What other requests do between two
    statements of a method is given by scripts of steps; each method is proved to perform exactly its own
    statements, interleaved with theirs, in the state machine. */
module SafetyService {
  import opened Common
  import opened SafetyState
  import opened SafetyProperties
  import opened AlertProperties

  datatype CompleteResult = NotFound | NotOwner | NotPending | WriteFailed | CheckedIn(row: CheckIn)

  /** How the monitor's loop goes for one row: what others do before it, whether the row scans, how the
      update ends, what others do before the alert, and how the alert's insert ends. */
  datatype RowPlan = RowPlan(before: seq<Step>, scanned: bool, mark: Outcome,
                             between: seq<Step>, alert: string, insert: Outcome)

  predicate NoMonitorSteps(steps: seq<Step>) {
    forall i :: 0 <= i < |steps| ==> !IsMonitorStep(steps[i])
  }

  predicate AvoidsCompletion(steps: seq<Step>, call: nat) {
    forall i :: 0 <= i < |steps| ==>
      (steps[i].CompleteRead? || steps[i].CompleteWrite?) ==> steps[i].call != call
  }

  predicate AvoidsResolving(steps: seq<Step>, call: nat) {
    forall i :: 0 <= i < |steps| ==>
      (steps[i].ResolveWrite? || steps[i].ResolveRead?) ==> steps[i].call != call
  }

  function RowSteps(p: RowPlan): seq<Step> {
    p.before +
    if !p.scanned then [SweepSkip]
    else [SweepMark(p.mark)] + if p.mark.Done? then p.between + [SweepAlert(p.alert, p.insert)] else []
  }

  function RowsSteps(plan: seq<RowPlan>, n: nat): seq<Step>
    requires n <= |plan|
  {
    if n == 0 then [] else RowsSteps(plan, n - 1) + RowSteps(plan[n - 1])
  }

  /** The whole sweep as a run of the state machine. */
  function SweepSteps(rows: seq<Row>, plan: seq<RowPlan>): seq<Step> {
    [SweepSelect(rows)] + RowsSteps(plan, |plan|) + [SweepEnd]
  }

  lemma StepKeepsMonitor(s: State, step: Step)
    ensures !IsMonitorStep(step) ==> Apply(s, step).monitor == s.monitor
  {
  }

  lemma {:induction false} OthersKeepMonitor(s: State, steps: seq<Step>)
    requires NoMonitorSteps(steps)
    ensures Exec(s, steps).monitor == s.monitor
    decreases |steps|
  {
    hide Apply, IsMonitorStep;
    if steps != [] {
      OthersKeepMonitor(s, steps[..|steps| - 1]);
      StepKeepsMonitor(Exec(s, steps[..|steps| - 1]), steps[|steps| - 1]);
    }
  }

  lemma StepKeepsCompletion(s: State, step: Step, call: nat)
    requires call in s.completing && ((step.CompleteRead? || step.CompleteWrite?) ==> step.call != call)
    ensures call in Apply(s, step).completing && Apply(s, step).completing[call] == s.completing[call]
  {
  }

  lemma {:induction false} OthersKeepCompletion(s: State, steps: seq<Step>, call: nat)
    requires AvoidsCompletion(steps, call) && call in s.completing
    ensures call in Exec(s, steps).completing && Exec(s, steps).completing[call] == s.completing[call]
    decreases |steps|
  {
    hide Apply;
    if steps != [] {
      OthersKeepCompletion(s, steps[..|steps| - 1], call);
      StepKeepsCompletion(Exec(s, steps[..|steps| - 1]), steps[|steps| - 1], call);
    }
  }

  lemma {:induction false} OthersSkipResolving(s: State, steps: seq<Step>, call: nat)
    requires AvoidsResolving(steps, call) && call !in s.resolving
    ensures call !in Exec(s, steps).resolving
    decreases |steps|
  {
    hide Apply;
    if steps != [] {
      OthersSkipResolving(s, steps[..|steps| - 1], call);
      StepSkipsResolving(Exec(s, steps[..|steps| - 1]), steps[|steps| - 1], call);
    }
  }

  lemma StepSkipsResolving(s: State, step: Step, call: nat)
    requires call !in s.resolving && ((step.ResolveWrite? || step.ResolveRead?) ==> step.call != call)
    ensures call !in Apply(s, step).resolving
  {
  }

  lemma {:induction false} ClockAdvances(s: State, steps: seq<Step>)
    ensures s.now <= Exec(s, steps).now
    decreases |steps|
  {
    hide Apply;
    if steps != [] {
      ClockAdvances(s, steps[..|steps| - 1]);
      StepClock(Exec(s, steps[..|steps| - 1]), steps[|steps| - 1]);
    }
  }

  lemma StepClock(s: State, step: Step)
    ensures s.now <= Apply(s, step).now
  {
  }

  /** What the conditional update leaves when it succeeds: the request waits for its read, and an alert it met is
      resolved or was no longer active. */
  lemma ResolveUpdate(s: State, call: nat, alert: string, resolver: string, stamp: Time, write: Outcome)
    requires call !in s.resolving && stamp <= s.now && write.Done?
    ensures var t := Apply(s, ResolveWrite(call, alert, resolver, stamp, write));
      && call in t.resolving && t.resolving[call] == alert
      && (alert in s.alerts ==>
            && alert in t.alerts && t.alerts[alert].status != Active
            && t.alerts[alert] == if s.alerts[alert].status == Active
               then s.alerts[alert].(status := Resolved, resolvedBy := Some(resolver), resolvedAt := Some(stamp))
               else s.alerts[alert])
  {
  }

  lemma StepKeepsResolving(s: State, step: Step, call: nat)
    requires call in s.resolving && ((step.ResolveWrite? || step.ResolveRead?) ==> step.call != call)
    ensures call in Apply(s, step).resolving && Apply(s, step).resolving[call] == s.resolving[call]
  {
  }

  lemma {:induction false} OthersKeepResolving(s: State, steps: seq<Step>, call: nat)
    requires AvoidsResolving(steps, call) && call in s.resolving
    ensures call in Exec(s, steps).resolving && Exec(s, steps).resolving[call] == s.resolving[call]
    decreases |steps|
  {
    hide Apply;
    if steps != [] {
      OthersKeepResolving(s, steps[..|steps| - 1], call);
      StepKeepsResolving(Exec(s, steps[..|steps| - 1]), steps[|steps| - 1], call);
    }
  }

  lemma RowStepsExec(s: State, p: RowPlan)
    ensures var f := Exec(s, p.before);
      Exec(s, RowSteps(p)) ==
        if !p.scanned then Apply(f, SweepSkip)
        else if !p.mark.Done? then Apply(f, SweepMark(p.mark))
        else Apply(Exec(Apply(f, SweepMark(p.mark)), p.between), SweepAlert(p.alert, p.insert))
  {
    hide Apply;
    var f, mark := Exec(s, p.before), SweepMark(p.mark);
    ExecStep(s, p.before, SweepSkip);
    ExecStep(s, p.before, mark);
    assert [mark] + [] == [mark];
    var tail := p.between + [SweepAlert(p.alert, p.insert)];
    ExecConcat(s, p.before, [mark] + tail);
    ExecConcat(f, [mark], tail);
    ExecOne(f, mark);
    ExecStep(Apply(f, mark), p.between, SweepAlert(p.alert, p.insert));
  }

  lemma SweepGrows(s: State, first: seq<Step>, plan: seq<RowPlan>, i: nat)
    requires i < |plan|
    ensures Exec(s, first + RowsSteps(plan, i + 1)) == Exec(Exec(s, first + RowsSteps(plan, i)), RowSteps(plan[i]))
  {
    hide Apply, RowSteps;
    assert first + RowsSteps(plan, i + 1) == (first + RowsSteps(plan, i)) + RowSteps(plan[i]);
    ExecConcat(s, first + RowsSteps(plan, i), RowSteps(plan[i]));
  }

  predicate Known(s: State, rows: seq<Row>) {
    forall k :: 0 <= k < |rows| ==> rows[k].id in s.checkIns
  }

  /** Of the first `n` rows, those whose mark was applied have left pending. */
  predicate Handled(s: State, rows: seq<Row>, plan: seq<RowPlan>, n: nat)
    requires n <= |rows| == |plan| && Known(s, rows)
  {
    forall k :: 0 <= k < n && plan[k].scanned && Applied(plan[k].mark) ==> s.checkIns[rows[k].id].status != Pending
  }

  lemma StayHandled(s: State, steps: seq<Step>, rows: seq<Row>, plan: seq<RowPlan>, n: nat)
    requires n <= |rows| == |plan| && Known(s, rows) && Handled(s, rows, plan, n)
    ensures Known(Exec(s, steps), rows) && Handled(Exec(s, steps), rows, plan, n)
  {
    hide Exec;
    forall k | 0 <= k < |rows|
      ensures rows[k].id in Exec(s, steps).checkIns
      ensures s.checkIns[rows[k].id].status != Pending ==> Exec(s, steps).checkIns[rows[k].id].status != Pending
    {
      NeverPendingAgain(s, steps, rows[k].id);
    }
  }

  /** The alert planned for the row was attempted; a clash of ids makes the attempt fail. */
  predicate AlertAttempted(log: seq<Event>, row: Row, p: RowPlan) {
    AlertTried(row.id, p.alert, p.insert) in log || AlertTried(row.id, p.alert, Failed(false)) in log
  }

  /** Of the first `n` rows, those whose mark was reported done have had their alert attempted. */
  predicate Attempted(log: seq<Event>, rows: seq<Row>, plan: seq<RowPlan>, n: nat)
    requires n <= |rows| == |plan|
  {
    forall k :: 0 <= k < n && plan[k].scanned && plan[k].mark.Done? ==> AlertAttempted(log, rows[k], plan[k])
  }

  lemma {:induction false} LogGrows(s: State, steps: seq<Step>)
    ensures s.log <= Exec(s, steps).log
    decreases |steps|
  {
    hide Apply;
    if steps != [] {
      LogGrows(s, steps[..|steps| - 1]);
      StepLog(Exec(s, steps[..|steps| - 1]), steps[|steps| - 1]);
    }
  }

  lemma StayAttempted(s: State, steps: seq<Step>, rows: seq<Row>, plan: seq<RowPlan>, n: nat)
    requires n <= |rows| == |plan| && Attempted(s.log, rows, plan, n)
    ensures Attempted(Exec(s, steps).log, rows, plan, n)
  {
    LogGrows(s, steps);
    hide Exec;
    forall e | e in s.log ensures e in Exec(s, steps).log {
      var j :| 0 <= j < |s.log| && s.log[j] == e;
      assert Exec(s, steps).log[j] == e;
    }
  }

  /** The first `n` rows are dealt with. */
  predicate Progress(s: State, rows: seq<Row>, plan: seq<RowPlan>, n: nat)
    requires n <= |rows| == |plan|
  {
    Known(s, rows) && Handled(s, rows, plan, n) && Attempted(s.log, rows, plan, n)
  }

  lemma KnownRow(s: State, rows: seq<Row>, plan: seq<RowPlan>, n: nat)
    requires n < |rows| == |plan| && Progress(s, rows, plan, n)
    ensures rows[n].id in s.checkIns
  {
  }

  lemma RowDone(s: State, steps: seq<Step>, rows: seq<Row>, plan: seq<RowPlan>, n: nat)
    requires n < |rows| == |plan| && Progress(s, rows, plan, n)
    requires var t := Exec(s, steps);
      && rows[n].id in t.checkIns
      && (plan[n].scanned && Applied(plan[n].mark) ==> t.checkIns[rows[n].id].status != Pending)
      && (plan[n].scanned && plan[n].mark.Done? ==> AlertAttempted(t.log, rows[n], plan[n]))
    ensures Progress(Exec(s, steps), rows, plan, n + 1)
  {
    StayHandled(s, steps, rows, plan, n);
    StayAttempted(s, steps, rows, plan, n);
    hide Exec, AlertAttempted;
  }

  class SafetyDb {
    var now: Time
    var checkIns: map<string, CheckIn>
    var alerts: map<string, Alert>
    var completing: map<nat, Request>
    var resolving: map<nat, string>
    var monitor: Monitor
    var log: seq<Event>

    function Snapshot(): State
      reads this
    {
      State(now, checkIns, alerts, completing, resolving, monitor, log)
    }

    constructor (start: Time)
      ensures Snapshot() == Init(start)
    {
      now, checkIns, alerts, completing, resolving, monitor, log := start, map[], map[], map[], map[], Idle, [];
    }

    /** One statement of anybody. */
    method Perform(step: Step)
      modifies this
      ensures Snapshot() == Apply(old(Snapshot()), step)
    {
      var t := Apply(Snapshot(), step);
      now, checkIns, alerts, completing := t.now, t.checkIns, t.alerts, t.completing;
      resolving, monitor, log := t.resolving, t.monitor, t.log;
    }

    /** What other requests do meanwhile. */
    method Interleave(others: seq<Step>)
      modifies this
      ensures Snapshot() == Exec(old(Snapshot()), others)
    {
      for i := 0 to |others|
        invariant Snapshot() == Exec(old(Snapshot()), others[..i])
      {
        assert others[..i + 1] == others[..i] + [others[i]];
        ExecStep(old(Snapshot()), others[..i], others[i]);
        Perform(others[i]);
      }
      assert others[..|others|] == others;
    }

    /** `ScheduleCheckIn`: only times not before the clock at the check, and a fresh id. */
    method ScheduleCheckIn(id: string, user: string, at: Time, outcome: Outcome) returns (ok: bool)
      requires id !in checkIns
      modifies this
      ensures Snapshot() == Exec(old(Snapshot()), [Schedule(id, user, at, old(now), outcome)])
      ensures ok <==> at >= old(now) && outcome.Done?
      ensures checkIns == if at >= old(now) && Applied(outcome)
        then old(checkIns)[id := CheckIn(user, at, Pending, None)] else old(checkIns)
    {
      ExecOne(Snapshot(), Schedule(id, user, at, now, outcome));
      if at < now {
        return false;
      }
      if Applied(outcome) {
        checkIns := checkIns[id := CheckIn(user, at, Pending, None)];
      }
      return outcome.Done?;
    }

    /** `CompleteCheckIn`: read the row, check owner and status, read the clock, then update by id alone. `before`
        and `after` are what others do between the read and the clock reading, and from there to the update. */
    method CompleteCheckIn(call: nat, id: string, user: string, before: seq<Step>, after: seq<Step>, write: Outcome)
      returns (r: CompleteResult)
      requires call !in completing && AvoidsCompletion(before, call) && AvoidsCompletion(after, call)
      modifies this
      ensures r.NotFound? <==> id !in old(checkIns)
      ensures r.NotOwner? <==> id in old(checkIns) && old(checkIns)[id].user != user
      ensures r.NotPending? <==>
        id in old(checkIns) && old(checkIns)[id].user == user && old(checkIns)[id].status != Pending
      ensures r.NotFound? || r.NotOwner? || r.NotPending? ==> Snapshot() == old(Snapshot())
      ensures r.WriteFailed? || r.CheckedIn? ==>
        var stamp := Exec(old(Snapshot()), [CompleteRead(call, id, user)] + before).now;
        Snapshot() == Exec(old(Snapshot()),
          [CompleteRead(call, id, user)] + before + after + [CompleteWrite(call, stamp, write)])
      ensures r.CheckedIn? ==>
        var stamp := Exec(old(Snapshot()), [CompleteRead(call, id, user)] + before).now;
        && r.row == old(checkIns)[id].(status := Completed, completedAt := Some(stamp))
        && id in checkIns && checkIns[id] == r.row
    {
      if id !in checkIns {
        return NotFound;
      }
      var row := checkIns[id];
      if row.user != user {
        return NotOwner;
      }
      if row.status != Pending {
        return NotPending;
      }
      ghost var start, first := Snapshot(), CompleteRead(call, id, user);
      completing := completing[call := Request(id, user)];
      ExecOne(start, first);
      ghost var read := Snapshot();
      Interleave(before);
      ExecConcat(start, [first], before);
      ghost var stamped := Snapshot();
      var stamp := now;
      Interleave(after);
      ExecConcat(start, [first] + before, after);
      ExecStep(start, [first] + before + after, CompleteWrite(call, stamp, write));
      OthersKeepCompletion(read, before, call);
      OthersKeepCompletion(stamped, after, call);
      NeverPendingAgain(read, before, id);
      NeverPendingAgain(stamped, after, id);
      WriteCompletion(call, stamp, write);
      if !write.Done? {
        return WriteFailed;
      }
      return CheckedIn(row.(status := Completed, completedAt := Some(stamp)));
    }

    /** The update of a completion. */
    method WriteCompletion(call: nat, stamp: Time, write: Outcome)
      requires call in completing && completing[call].id in checkIns && stamp <= now
      modifies this
      ensures Snapshot() == Apply(old(Snapshot()), CompleteWrite(call, stamp, write))
      ensures var id := old(completing)[call].id;
        checkIns == if Applied(write)
          then old(checkIns)[id := old(checkIns)[id].(status := Completed, completedAt := Some(stamp))]
          else old(checkIns)
    {
      var id := completing[call].id;
      if Applied(write) {
        checkIns := checkIns[id := checkIns[id].(status := Completed, completedAt := Some(stamp))];
      }
      log := log + [CompletionTried(id, completing[call].user, now, stamp, write)];
      completing := completing - {call};
    }

    /** `ResolveAlert`: read the clock, update conditionally, then read the row; both statements may fail. `before`,
        `between` are what others do before the update and before the read. An alert that the update met comes
        back resolved: by this resolver if it was active then, otherwise as it was. */
    method ResolveAlert(call: nat, alert: string, resolver: string, before: seq<Step>, write: Outcome,
                        between: seq<Step>, read: bool)
      returns (row: Option<Alert>)
      requires call !in resolving && AvoidsResolving(before, call) && AvoidsResolving(between, call)
      modifies this
      ensures var update := ResolveWrite(call, alert, resolver, old(now), write);
        var met := Exec(old(Snapshot()), before);
        && (!write.Done? ==> Snapshot() == Apply(met, update))
        && (write.Done? && !read ==> Snapshot() == Exec(Apply(met, update), between))
        && (write.Done? && read ==> Snapshot() == Apply(Exec(Apply(met, update), between), ResolveRead(call)))
      ensures !write.Done? || !read ==> row == None
      ensures write.Done? && read ==>
        var met := Exec(old(Snapshot()), before);
        && row == (if alert in alerts then Some(alerts[alert]) else None)
        && (alert in met.alerts ==>
              row == Some(if met.alerts[alert].status == Active
                then met.alerts[alert].(status := Resolved, resolvedBy := Some(resolver), resolvedAt := Some(old(now)))
                else met.alerts[alert]))
    {
      hide Apply, Exec, AvoidsResolving;
      var stamp := now;
      ghost var start := Snapshot();
      OthersSkipResolving(start, before, call);
      ClockAdvances(start, before);
      Interleave(before);
      ghost var met := Snapshot();
      if write.Done? {
        ResolveUpdate(met, call, alert, resolver, stamp, write);
      }
      Perform(ResolveWrite(call, alert, resolver, stamp, write));
      if !write.Done? {
        return None;
      }
      ghost var written := Snapshot();
      Interleave(between);
      OthersKeepResolving(written, between, call);
      if alert in met.alerts {
        ResolutionFrozen(written, between, alert);
      }
      if !read {
        return None;
      }
      row := ReadBack(call);
    }

    /** The read at the end of `ResolveAlert`. */
    method ReadBack(call: nat) returns (row: Option<Alert>)
      requires call in resolving
      modifies this
      ensures Snapshot() == Apply(old(Snapshot()), ResolveRead(call)) && alerts == old(alerts)
      ensures var alert := old(resolving)[call]; row == if alert in alerts then Some(alerts[alert]) else None
    {
      var alert := resolving[call];
      resolving := resolving - {call};
      if alert !in alerts {
        return None;
      }
      log := log + [ResolveReturned(call, alert, alerts[alert])];
      return Some(alerts[alert]);
    }

    /** `processMissedCheckIns`: fetch overdue rows, then per row mark it and raise an alert, going on to the
        next row when a statement fails. Whatever others do meanwhile, at the end every row whose mark was applied
        is no longer pending and every reported mark has had its alert attempted, and the whole is the run
        `SweepSteps`. */
    method ProcessMissedCheckIns(rows: seq<Row>, plan: seq<RowPlan>)
      requires monitor.Idle? && Selectable(Snapshot(), rows) && |plan| == |rows|
      requires forall i :: 0 <= i < |plan| ==> NoMonitorSteps(plan[i].before) && NoMonitorSteps(plan[i].between)
      modifies this
      ensures Snapshot() == Exec(old(Snapshot()), SweepSteps(rows, plan))
      ensures monitor == Idle
      ensures Known(Snapshot(), rows) && Handled(Snapshot(), rows, plan, |rows|)
      ensures Attempted(log, rows, plan, |rows|)
    {
      ghost var start := Snapshot();
      ghost var first := [SweepSelect(rows)];
      BeginSweep(rows);
      ExecOne(start, SweepSelect(rows));
      assert first + RowsSteps(plan, 0) == first;
      hide Apply, RowSteps;
      for i := 0 to |rows|
        invariant monitor == Sweeping(rows[i..])
        invariant Snapshot() == Exec(start, first + RowsSteps(plan, i))
        invariant Progress(Snapshot(), rows, plan, i)
      {
        ghost var top := Snapshot();
        hide Exec, RowsSteps, NoMonitorSteps, Progress;
        KnownRow(top, rows, plan, i);
        assert rows[i..] == [rows[i]] + rows[i + 1..];
        ProcessRow(rows[i], rows[i + 1..], plan[i]);
        SweepGrows(start, first, plan, i);
        RowDone(top, RowSteps(plan[i]), rows, plan, i);
      }
      ExecStep(start, first + RowsSteps(plan, |plan|), SweepEnd);
      EndSweep();
    }

    method BeginSweep(rows: seq<Row>)
      requires monitor.Idle? && Selectable(Snapshot(), rows)
      modifies this
      ensures Snapshot() == Apply(old(Snapshot()), SweepSelect(rows))
      ensures monitor == Sweeping(rows) && checkIns == old(checkIns)
    {
      monitor := Sweeping(rows);
    }

    method EndSweep()
      requires monitor.Sweeping?
      modifies this
      ensures Snapshot() == Apply(old(Snapshot()), SweepEnd) && monitor == Idle
      ensures checkIns == old(checkIns) && log == old(log)
    {
      monitor := Idle;
    }

    /** The body of the row loop. */
    method ProcessRow(row: Row, rest: seq<Row>, p: RowPlan)
      requires monitor == Sweeping([row] + rest) && row.id in checkIns
      requires NoMonitorSteps(p.before) && NoMonitorSteps(p.between)
      modifies this
      ensures Snapshot() == Exec(old(Snapshot()), RowSteps(p))
      ensures monitor == Sweeping(rest)
      ensures row.id in checkIns && (p.scanned && Applied(p.mark) ==> checkIns[row.id].status != Pending)
      ensures p.scanned && p.mark.Done? ==> AlertAttempted(log, row, p)
      ensures p.scanned && p.mark.Done? && Applied(p.insert) ==>
        var others := Exec(Apply(Exec(old(Snapshot()), p.before), SweepMark(p.mark)), p.between);
        p.alert !in others.alerts ==> alerts == others.alerts[p.alert := Alert(row.user, Safety, Active, None, None)]
    {
      hide Apply;
      ghost var start := Snapshot();
      RowStepsExec(start, p);
      OthersKeepMonitor(start, p.before);
      NeverPendingAgain(start, p.before, row.id);
      Interleave(p.before);
      if !p.scanned {
        SkipRow();
        return;
      }
      MarkRow(p.mark);
      if !p.mark.Done? {
        return;
      }
      ghost var marked := Snapshot();
      OthersKeepMonitor(marked, p.between);
      NeverPendingAgain(marked, p.between, row.id);
      Interleave(p.between);
      RaiseAlert(p.alert, p.insert);
    }

    method SkipRow()
      requires monitor.Sweeping? && monitor.todo != []
      modifies this
      ensures Snapshot() == Apply(old(Snapshot()), SweepSkip)
      ensures monitor == Sweeping(old(monitor).todo[1..]) && checkIns == old(checkIns)
    {
      monitor := Sweeping(monitor.todo[1..]);
    }

    method MarkRow(outcome: Outcome)
      requires monitor.Sweeping? && monitor.todo != [] && monitor.todo[0].id in checkIns
      modifies this
      ensures Snapshot() == Apply(old(Snapshot()), SweepMark(outcome))
      ensures var row, rest := old(monitor).todo[0], old(monitor).todo[1..];
        && monitor == (if outcome.Done? then Alerting(row, rest) else Sweeping(rest))
        && checkIns == if Applied(outcome) then old(checkIns)[row.id := old(checkIns)[row.id].(status := Missed)]
           else old(checkIns)
    {
      var row, rest := monitor.todo[0], monitor.todo[1..];
      if Applied(outcome) {
        checkIns := checkIns[row.id := checkIns[row.id].(status := Missed)];
      }
      log := log + [MarkTried(row.id, now, outcome)];
      monitor := if outcome.Done? then Alerting(row, rest) else Sweeping(rest);
    }

    method RaiseAlert(alert: string, outcome: Outcome)
      requires monitor.Alerting?
      modifies this
      ensures Snapshot() == Apply(old(Snapshot()), SweepAlert(alert, outcome))
      ensures monitor == Sweeping(old(monitor).todo) && checkIns == old(checkIns)
      ensures alerts == if alert !in old(alerts) && Applied(outcome)
        then old(alerts)[alert := Alert(old(monitor).row.user, Safety, Active, None, None)] else old(alerts)
      ensures log == old(log) +
        [AlertTried(old(monitor).row.id, alert, if alert in old(alerts) then Failed(false) else outcome)]
    {
      var clash := alert in alerts;
      var raised := TriggerAlert(alert, monitor.row.user, Safety, outcome);
      log := log + [AlertTried(monitor.row.id, alert, if clash then Failed(false) else outcome)];
      monitor := Sweeping(monitor.todo);
    }

    /** `TriggerAlert`, table effect: insert one active alert. */
    method TriggerAlert(alert: string, user: string, kind: AlertKind, outcome: Outcome) returns (ok: bool)
      modifies this
      ensures Snapshot() == Apply(old(Snapshot()), Trigger(alert, user, kind, outcome))
      ensures ok <==> alert !in old(alerts) && outcome.Done?
      ensures alerts == if alert !in old(alerts) && Applied(outcome)
        then old(alerts)[alert := Alert(user, kind, Active, None, None)] else old(alerts)
    {
      if alert in alerts {
        return false;
      }
      if Applied(outcome) {
        alerts := alerts[alert := Alert(user, kind, Active, None, None)];
      }
      return outcome.Done?;
    }
  }
}
