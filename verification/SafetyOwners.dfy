/** Who acts for whom: in every interleaving alerts of the monitor go to the owner of the missed check-in, and
    only the owner completes a check-in. */
module SafetyOwners {
  import opened Common
  import opened SafetyState
  import opened SafetyProperties

  predicate Owns(s: State, id: string, user: string) {
    id in s.checkIns && s.checkIns[id].user == user
  }

  /** Rows held by the monitor, fetched or being alerted, and requests under way name the owner. */
  ghost predicate HoldersInv(s: State) {
    && (forall i :: 0 <= i < |Remaining(s.monitor)| ==>
          Owns(s, Remaining(s.monitor)[i].id, Remaining(s.monitor)[i].user))
    && (s.monitor.Alerting? ==> Owns(s, s.monitor.row.id, s.monitor.row.user))
    && (forall call :: call in s.completing ==> Owns(s, s.completing[call].id, s.completing[call].user))
  }

  /** What an event of the history says about ownership now. */
  ghost predicate OwnerHolds(s: State, e: Event) {
    && (e.AlertTried? && Applied(e.outcome) ==>
          e.alert in s.alerts && s.alerts[e.alert].kind == Safety && Owns(s, e.id, s.alerts[e.alert].user))
    && (e.CompletionTried? ==> Owns(s, e.id, e.user))
  }

  ghost predicate OwnerInv(s: State) {
    HoldersInv(s) && forall j :: 0 <= j < |s.log| ==> OwnerHolds(s, s.log[j])
  }

  lemma StepOwns(s: State, step: Step, id: string, user: string)
    ensures Owns(s, id, user) ==> Owns(Apply(s, step), id, user)
  {
    StepMoves(s, step, id);
  }

  /** No step changes for whom an alert is, or what kind it is. */
  lemma StepAddressee(s: State, step: Step, alert: string)
    ensures alert in s.alerts ==>
      var t := Apply(s, step);
      alert in t.alerts && t.alerts[alert].user == s.alerts[alert].user && t.alerts[alert].kind == s.alerts[alert].kind
  {
  }

  lemma OwnerKept(s: State, step: Step, e: Event)
    requires OwnerHolds(s, e)
    ensures OwnerHolds(Apply(s, step), e)
  {
    hide Apply;
    if e.AlertTried? && Applied(e.outcome) {
      StepAddressee(s, step, e.alert);
      StepOwns(s, step, e.id, s.alerts[e.alert].user);
    }
    if e.CompletionTried? {
      StepOwns(s, step, e.id, e.user);
    }
  }

  lemma NewOwner(s: State, step: Step)
    requires HoldersInv(s) && |Apply(s, step).log| > |s.log|
    ensures OwnerHolds(Apply(s, step), Apply(s, step).log[|s.log|])
  {
  }

  lemma RequestKept(s: State, step: Step, call: nat)
    requires call in s.completing ==> Owns(s, s.completing[call].id, s.completing[call].user)
    ensures var t := Apply(s, step);
      call in t.completing ==> Owns(t, t.completing[call].id, t.completing[call].user)
  {
    var t := Apply(s, step);
    if call in t.completing {
      StepMoves(s, step, t.completing[call].id);
    }
  }

  lemma AlertingKept(s: State, step: Step)
    requires HoldersInv(s)
    ensures var t := Apply(s, step); t.monitor.Alerting? ==> Owns(t, t.monitor.row.id, t.monitor.row.user)
  {
    var t := Apply(s, step);
    if t.monitor.Alerting? {
      assert t.monitor == s.monitor || t.monitor.row == Remaining(s.monitor)[0];
      StepMoves(s, step, t.monitor.row.id);
    }
  }

  lemma StepHolders(s: State, step: Step)
    requires HoldersInv(s)
    ensures HoldersInv(Apply(s, step))
  {
    var t := Apply(s, step);
    SweepShape(s, step);
    AlertingKept(s, step);
    hide Apply;
    var before, after := Remaining(s.monitor), Remaining(t.monitor);
    forall i | 0 <= i < |after| ensures Owns(t, after[i].id, after[i].user) {
      StepOwns(s, step, after[i].id, after[i].user);
    }
    forall call | call in t.completing ensures Owns(t, t.completing[call].id, t.completing[call].user) {
      RequestKept(s, step, call);
    }
  }

  lemma StepOwnerInv(s: State, step: Step)
    requires OwnerInv(s)
    ensures OwnerInv(Apply(s, step))
  {
    var t := Apply(s, step);
    StepLog(s, step);
    StepHolders(s, step);
    hide Apply;
    forall j | 0 <= j < |t.log| ensures OwnerHolds(t, t.log[j]) {
      hide OwnerHolds, HoldersInv;
      if j < |s.log| {
        OwnerKept(s, step, s.log[j]);
      } else {
        NewOwner(s, step);
      }
    }
  }

  lemma {:induction false} RunOwnerInv(s: State, steps: seq<Step>)
    requires OwnerInv(s)
    ensures OwnerInv(Exec(s, steps))
    decreases |steps|
  {
    hide OwnerInv, Apply;
    if steps != [] {
      RunOwnerInv(s, steps[..|steps| - 1]);
      StepOwnerInv(Exec(s, steps[..|steps| - 1]), steps[|steps| - 1]);
    }
  }

  /** In every run, an alert the monitor inserted for a check-in is a safety alert for the owner of that check-in,
      and a completion is only ever tried on behalf of the owner. */
  lemma OwnersServed(now: Time, steps: seq<Step>, j: nat)
    requires j < |Exec(Init(now), steps).log|
    ensures var s := Exec(Init(now), steps);
      var e := s.log[j];
      && (e.AlertTried? && Applied(e.outcome) ==>
            && e.id in s.checkIns && e.alert in s.alerts
            && s.alerts[e.alert].user == s.checkIns[e.id].user && s.alerts[e.alert].kind == Safety)
      && (e.CompletionTried? ==> e.id in s.checkIns && s.checkIns[e.id].user == e.user)
  {
    hide Exec;
    RunOwnerInv(Init(now), steps);
    assert OwnerHolds(Exec(Init(now), steps), Exec(Init(now), steps).log[j]);
  }

  // ----- One alert row per escalation -----

  predicate Escalates(e: Event) {
    e.AlertTried? && Applied(e.outcome)
  }

  /** Applied alert attempts have alert rows of their own. */
  ghost predicate AlertsApart(s: State) {
    && (forall j :: 0 <= j < |s.log| && Escalates(s.log[j]) ==> s.log[j].alert in s.alerts)
    && (forall i, j :: 0 <= i < j < |s.log| && Escalates(s.log[i]) && Escalates(s.log[j]) ==>
          s.log[i].alert != s.log[j].alert)
  }

  lemma AlertEvent(s: State, step: Step)
    ensures var t := Apply(s, step);
      |t.log| > |s.log| && Escalates(t.log[|s.log|]) ==>
        t.log[|s.log|].alert !in s.alerts && t.log[|s.log|].alert in t.alerts
    ensures forall alert :: alert in s.alerts ==> alert in Apply(s, step).alerts
  {
  }

  lemma StepAlertsApart(s: State, step: Step)
    requires AlertsApart(s)
    ensures AlertsApart(Apply(s, step))
  {
    StepLog(s, step);
    AlertEvent(s, step);
    hide Apply;
  }

  lemma {:induction false} RunAlertsApart(s: State, steps: seq<Step>)
    requires AlertsApart(s)
    ensures AlertsApart(Exec(s, steps))
    decreases |steps|
  {
    hide AlertsApart, Apply;
    if steps != [] {
      RunAlertsApart(s, steps[..|steps| - 1]);
      StepAlertsApart(Exec(s, steps[..|steps| - 1]), steps[|steps| - 1]);
    }
  }

  /** Two escalations never share an alert row: an owner with two missed check-ins gets two alerts. */
  lemma EscalationsApart(now: Time, steps: seq<Step>, i: nat, j: nat)
    requires var log := Exec(Init(now), steps).log;
      i < j < |log| && Escalates(log[i]) && Escalates(log[j])
    ensures Exec(Init(now), steps).log[i].alert != Exec(Init(now), steps).log[j].alert
  {
    hide Exec;
    RunAlertsApart(Init(now), steps);
  }
}
