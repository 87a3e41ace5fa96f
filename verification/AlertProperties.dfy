/** First resolver wins: what every interleaving keeps about emergency alerts. */
module AlertProperties {
  import opened Common
  import opened SafetyState

  /** The first resolving update in the history that met the alert. */
  function FirstResolve(log: seq<Event>, alert: string): Option<Event>
    ensures FirstResolve(log, alert).Some? ==> FirstResolve(log, alert).value.ResolveApplied?
    decreases |log|
  {
    if log == [] then None
    else
      var earlier := FirstResolve(log[..|log| - 1], alert);
      var last := log[|log| - 1];
      if earlier.Some? then earlier
      else if last.ResolveApplied? && last.alert == alert then Some(last)
      else None
  }

  lemma FirstResolveAppend(log: seq<Event>, e: Event, alert: string)
    ensures FirstResolve(log + [e], alert) ==
      if FirstResolve(log, alert).Some? then FirstResolve(log, alert)
      else if e.ResolveApplied? && e.alert == alert then Some(e) else None
  {
    assert (log + [e])[..|log|] == log;
  }

  /** The alert row says exactly what the first resolving update wrote, or is untouched when there is none. */
  predicate RowMatches(row: Alert, first: Option<Event>)
    requires first.Some? ==> first.value.ResolveApplied?
  {
    match first
    case None => row.status == Active && row.resolvedBy == None && row.resolvedAt == None
    case Some(e) => row.status == Resolved && row.resolvedBy == Some(e.resolver) && row.resolvedAt == Some(e.stamp)
  }

  ghost predicate AlertInv(s: State) {
    && (forall a :: a in s.alerts ==> RowMatches(s.alerts[a], FirstResolve(s.log, a)))
    && (forall a :: a !in s.alerts ==> FirstResolve(s.log, a) == None)
  }

  /** Every row handed back to a resolver is the first resolver's. */
  ghost predicate ReturnsInv(s: State) {
    forall j :: 0 <= j < |s.log| && s.log[j].ResolveReturned? ==>
      RowMatches(s.log[j].row, FirstResolve(s.log[..j], s.log[j].alert))
  }

  /** The step is a resolving update that meets the alert. */
  predicate Resolves(s: State, step: Step, a: string) {
    && step.ResolveWrite? && step.alert == a && a in s.alerts
    && step.call !in s.resolving && step.stamp <= s.now && Applied(step.outcome)
  }

  /** A resolving update that meets the alert writes it if it is active, and is recorded. */
  lemma ResolvingDelta(s: State, step: Step, a: string)
    requires Resolves(s, step, a)
    ensures var t := Apply(s, step);
      && t.log == s.log + [ResolveApplied(step.call, a, step.resolver, step.stamp)] && a in t.alerts
      && t.alerts[a] == if s.alerts[a].status == Active
         then s.alerts[a].(status := Resolved, resolvedBy := Some(step.resolver), resolvedAt := Some(step.stamp))
         else s.alerts[a]
  {
  }

  /** Any other step leaves the alert and its resolutions alone, or creates it untouched. */
  lemma OtherDelta(s: State, step: Step, a: string)
    requires !Resolves(s, step, a)
    ensures var t := Apply(s, step);
      && (a in s.alerts ==> a in t.alerts && t.alerts[a] == s.alerts[a])
      && (a !in s.alerts && a in t.alerts ==> RowMatches(t.alerts[a], None))
      && (t.log != s.log ==> var e := t.log[|s.log|]; !(e.ResolveApplied? && e.alert == a))
  {
  }

  lemma StepAlert(s: State, step: Step, a: string)
    requires AlertInv(s)
    ensures var t := Apply(s, step);
      && (a in t.alerts ==> RowMatches(t.alerts[a], FirstResolve(t.log, a)))
      && (a !in t.alerts ==> FirstResolve(t.log, a) == None)
  {
    hide Apply, FirstResolve;
    var t := Apply(s, step);
    if Resolves(s, step, a) {
      ResolvingDelta(s, step, a);
    } else {
      OtherDelta(s, step, a);
    }
    StepLog(s, step);
    if t.log != s.log {
      FirstResolveAppend(s.log, t.log[|s.log|], a);
    }
  }

  lemma ReturnedRow(s: State, step: Step)
    requires AlertInv(s) && |Apply(s, step).log| > |s.log|
    ensures var e := Apply(s, step).log[|s.log|];
      e.ResolveReturned? ==> RowMatches(e.row, FirstResolve(s.log, e.alert))
  {
    hide FirstResolve;
  }

  lemma StepReturns(s: State, step: Step)
    requires AlertInv(s) && ReturnsInv(s)
    ensures ReturnsInv(Apply(s, step))
  {
    var t := Apply(s, step);
    StepLog(s, step);
    hide Apply, FirstResolve, AlertInv;
    if t.log != s.log {
      ReturnedRow(s, step);
      forall j | 0 <= j < |t.log| && t.log[j].ResolveReturned?
        ensures RowMatches(t.log[j].row, FirstResolve(t.log[..j], t.log[j].alert))
      {
        assert t.log[..j] == s.log[..j];
        assert s.log[..|s.log|] == s.log;
      }
    }
  }

  lemma {:induction false} RunAlerts(s: State, steps: seq<Step>)
    requires AlertInv(s) && ReturnsInv(s)
    ensures AlertInv(Exec(s, steps)) && ReturnsInv(Exec(s, steps))
    decreases |steps|
  {
    hide Apply, ReturnsInv, FirstResolve;
    if steps != [] {
      var before, last := Exec(s, steps[..|steps| - 1]), steps[|steps| - 1];
      RunAlerts(s, steps[..|steps| - 1]);
      StepReturns(before, last);
      forall a ensures var t := Apply(before, last);
        && (a in t.alerts ==> RowMatches(t.alerts[a], FirstResolve(t.log, a)))
        && (a !in t.alerts ==> FirstResolve(t.log, a) == None)
      {
        StepAlert(before, last, a);
      }
    }
  }

  /** First resolver wins: in every run an alert row is resolved exactly when both resolution fields are set,
      those fields are the first resolving update's, and a row read back shows the first resolving update before
      the read, or is untouched when there was none. */
  lemma FirstResolverWins(now: Time, steps: seq<Step>)
    ensures var s := Exec(Init(now), steps);
      && (forall a :: a in s.alerts ==>
            && (s.alerts[a].status == Resolved <==> s.alerts[a].resolvedBy.Some?)
            && (s.alerts[a].status == Resolved <==> s.alerts[a].resolvedAt.Some?)
            && RowMatches(s.alerts[a], FirstResolve(s.log, a)))
      && (forall j :: 0 <= j < |s.log| && s.log[j].ResolveReturned? ==>
            RowMatches(s.log[j].row, FirstResolve(s.log[..j], s.log[j].alert)))
  {
    InitAlerts(now);
    hide Exec, FirstResolve;
    RunAlerts(Init(now), steps);
  }

  lemma InitAlerts(now: Time)
    ensures AlertInv(Init(now)) && ReturnsInv(Init(now))
  {
  }

  lemma {:induction false} FirstResolveFound(log: seq<Event>, i: nat)
    requires i < |log| && log[i].ResolveApplied?
    ensures FirstResolve(log, log[i].alert).Some?
    decreases |log|
  {
    if i < |log| - 1 {
      FirstResolveFound(log[..|log| - 1], i);
    }
  }

  /** A resolver whose own update met the alert reads a resolved row, with the fields of the first resolver. */
  lemma ResolverReadsResolution(now: Time, steps: seq<Step>, i: nat, j: nat)
    requires var log := Exec(Init(now), steps).log;
      && i < j < |log| && log[i].ResolveApplied? && log[j].ResolveReturned?
      && log[i].call == log[j].call && log[i].alert == log[j].alert
    ensures var log := Exec(Init(now), steps).log;
      && log[j].row.status == Resolved
      && FirstResolve(log[..j], log[j].alert).Some?
      && log[j].row.resolvedBy == Some(FirstResolve(log[..j], log[j].alert).value.resolver)
      && log[j].row.resolvedAt == Some(FirstResolve(log[..j], log[j].alert).value.stamp)
  {
    hide Exec, FirstResolve;
    FirstResolverWins(now, steps);
    FirstResolveFound(Exec(Init(now), steps).log[..j], i);
  }

  /** Without that the row may still be active: an update that ran before the alert's insert met nothing. */
  lemma EarlyResolverReadsActive()
    ensures Exec(Init(0), [ResolveWrite(0, "a", "r", 0, Done), Trigger("a", "u", Safety, Done), ResolveRead(0)]).log
         == [ResolveReturned(0, "a", Alert("u", Safety, Active, None, None))]
  {
    var write, insert, read := ResolveWrite(0, "a", "r", 0, Done), Trigger("a", "u", Safety, Done), ResolveRead(0);
    assert [write, insert, read] == [] + [write] + [insert] + [read];
    ExecStep(Init(0), [], write);
    ExecStep(Init(0), [] + [write], insert);
    ExecStep(Init(0), [] + [write] + [insert], read);
  }

  /** Written at most once: an alert that is no longer active is never written again. */
  lemma {:induction false} ResolutionFrozen(s: State, steps: seq<Step>, alert: string)
    requires alert in s.alerts && s.alerts[alert].status != Active
    ensures alert in Exec(s, steps).alerts && Exec(s, steps).alerts[alert] == s.alerts[alert]
    decreases |steps|
  {
    hide Apply;
    if steps != [] {
      ResolutionFrozen(s, steps[..|steps| - 1], alert);
      StepFrozen(Exec(s, steps[..|steps| - 1]), steps[|steps| - 1], alert);
    }
  }

  lemma StepFrozen(s: State, step: Step, alert: string)
    requires alert in s.alerts && s.alerts[alert].status != Active
    ensures alert in Apply(s, step).alerts && Apply(s, step).alerts[alert] == s.alerts[alert]
  {
  }
}
