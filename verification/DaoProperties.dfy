/** The vote ledger against a replay of its history, over every interleaving of requests. */
module DaoProperties {
  import opened Common
  import opened DaoState

  // ----- Replay: what the history of writes means, without any table -----

  /** The vote a user ends up with: the last explicit vote, or the automatic yes when there is none. */
  function Effective(history: seq<Written>, id: string, user: string): Option<Choice>
    decreases |history|
  {
    if history == [] then None
    else
      var earlier := Effective(history[..|history| - 1], id, user);
      match history[|history| - 1]
      case Cast(p, u, choice) => if p == id && u == user then Some(choice) else earlier
      case Auto(p, u) => if p == id && u == user && earlier == None then Some(Yes) else earlier
  }

  /** Everybody who has a vote write on the proposal. */
  function Voters(history: seq<Written>, id: string): set<string> {
    set w | w in history && w.proposal == id :: w.user
  }

  function VotersFor(history: seq<Written>, id: string, choice: Choice): set<string> {
    set u | u in Voters(history, id) && Effective(history, id, u) == Some(choice)
  }

  lemma EffectiveAppend(history: seq<Written>, w: Written, id: string, user: string)
    ensures Effective(history + [w], id, user) ==
      if w.proposal != id || w.user != user then Effective(history, id, user)
      else if w.Cast? then Some(w.choice)
      else if Effective(history, id, user) == None then Some(Yes) else Effective(history, id, user)
  {
    assert (history + [w])[..|history|] == history;
  }

  lemma {:induction false} EffectiveIffVoter(history: seq<Written>, id: string, user: string)
    ensures Effective(history, id, user).Some? <==> user in Voters(history, id)
    decreases |history|
  {
    if history == [] {
    } else {
      var front, last := history[..|history| - 1], history[|history| - 1];
      EffectiveIffVoter(front, id, user);
      assert history == front + [last];
      assert Voters(history, id) == Voters(front, id) + if last.proposal == id then {last.user} else {};
    }
  }

  /** The automatic yes never overrides an explicit vote, before or after it: once a user has cast,
      the effective vote is the last cast. */
  lemma {:induction false} LastCastCounts(history: seq<Written>, j: nat)
    requires j < |history| && history[j].Cast?
    requires forall k :: j < k < |history| && history[k].Cast? ==>
      history[k].proposal != history[j].proposal || history[k].user != history[j].user
    ensures Effective(history, history[j].proposal, history[j].user) == Some(history[j].choice)
    decreases |history|
  {
    if j < |history| - 1 {
      LastCastCounts(history[..|history| - 1], j);
    }
  }

  // ----- The table -----

  predicate Unique(votes: seq<VoteRow>) {
    votes == [] || (RowChoice(votes[1..], votes[0].proposal, votes[0].user) == None && Unique(votes[1..]))
  }

  predicate WeightOne(votes: seq<VoteRow>) {
    forall i :: 0 <= i < |votes| ==> votes[i].weight == 1
  }

  lemma {:induction false} UpsertChoice(votes: seq<VoteRow>, row: VoteRow, id: string, user: string)
    ensures RowChoice(Upsert(votes, row), id, user) ==
      if SameKey(row, id, user) then Some(row.choice) else RowChoice(votes, id, user)
  {
    if votes == [] {
    } else if SameKey(votes[0], row.proposal, row.user) {
      assert Upsert(votes, row)[1..] == votes[1..];
    } else {
      UpsertChoice(votes[1..], row, id, user);
      assert Upsert(votes, row)[1..] == Upsert(votes[1..], row);
    }
  }

  lemma {:induction false} UpsertUnique(votes: seq<VoteRow>, row: VoteRow)
    requires Unique(votes) && WeightOne(votes) && row.weight == 1
    ensures Unique(Upsert(votes, row)) && WeightOne(Upsert(votes, row))
  {
    if votes == [] {
    } else if SameKey(votes[0], row.proposal, row.user) {
      assert Upsert(votes, row)[1..] == votes[1..];
    } else {
      UpsertUnique(votes[1..], row);
      UpsertChoice(votes[1..], row, votes[0].proposal, votes[0].user);
      assert Upsert(votes, row)[1..] == Upsert(votes[1..], row);
    }
  }

  /** Appending a row with a new key is what the upsert does too. */
  lemma {:induction false} AppendIsUpsert(votes: seq<VoteRow>, row: VoteRow)
    requires RowChoice(votes, row.proposal, row.user) == None
    ensures votes + [row] == Upsert(votes, row)
  {
    if votes == [] {
    } else {
      AppendIsUpsert(votes[1..], row);
      assert votes + [row] == [votes[0]] + (votes[1..] + [row]);
    }
  }

  /** A sum moves by one out of the old choice of the key and into the new one. */
  lemma {:induction false} SumUpsert(votes: seq<VoteRow>, row: VoteRow, id: string, choice: Choice)
    requires Unique(votes) && WeightOne(votes) && row.weight == 1
    ensures SumWeights(Upsert(votes, row), id, choice) == SumWeights(votes, id, choice)
      - (if row.proposal == id && RowChoice(votes, id, row.user) == Some(choice) then 1 else 0)
      + (if row.proposal == id && row.choice == choice then 1 else 0)
  {
    if votes == [] {
      assert Upsert(votes, row)[1..] == [];
    } else if SameKey(votes[0], row.proposal, row.user) {
      assert Upsert(votes, row)[1..] == votes[1..];
    } else {
      SumUpsert(votes[1..], row, id, choice);
      assert Upsert(votes, row)[1..] == Upsert(votes[1..], row);
    }
  }

  /** Users of the proposal with this choice. */
  function UsersIn(votes: seq<VoteRow>, id: string, choice: Choice): set<string> {
    if votes == [] then {}
    else
      var rest := UsersIn(votes[1..], id, choice);
      if votes[0].proposal == id && votes[0].choice == choice then rest + {votes[0].user} else rest
  }

  lemma {:induction false} UsersInChoice(votes: seq<VoteRow>, id: string, choice: Choice, user: string)
    requires Unique(votes)
    ensures user in UsersIn(votes, id, choice) <==> RowChoice(votes, id, user) == Some(choice)
  {
    if votes == [] {
    } else {
      UsersInChoice(votes[1..], id, choice, user);
    }
  }

  /** With one row of weight 1 per key, a sum of weights counts users. */
  lemma {:induction false} SumCountsUsers(votes: seq<VoteRow>, id: string, choice: Choice)
    requires Unique(votes) && WeightOne(votes)
    ensures SumWeights(votes, id, choice) == |UsersIn(votes, id, choice)|
  {
    if votes == [] {
    } else {
      SumCountsUsers(votes[1..], id, choice);
      UsersInChoice(votes[1..], id, choice, votes[0].user);
    }
  }

  // ----- Invariant -----

  ghost predicate Inv(s: State) {
    && Unique(s.votes) && WeightOne(s.votes)
    && (forall id, user :: RowChoice(s.votes, id, user) == Effective(s.history, id, user))
    && (forall id :: id in s.proposals ==> s.proposals[id].status == Active && s.proposals[id].quorum >= 1)
    && (forall call :: call in s.casting ==> s.casting[call].proposal in s.proposals)
    && (forall call :: call in s.creating ==> s.creating[call] in s.proposals)
  }

  lemma UpsertKeepsInv(votes: seq<VoteRow>, row: VoteRow, history: seq<Written>, w: Written, id: string, user: string)
    requires RowChoice(votes, id, user) == Effective(history, id, user)
    requires w.proposal == row.proposal && w.user == row.user
    requires w.Cast? ==> w.choice == row.choice
    requires w.Auto? ==> RowChoice(votes, row.proposal, row.user) == None && row.choice == Yes
    ensures RowChoice(Upsert(votes, row), id, user) == Effective(history + [w], id, user)
  {
    hide Upsert, RowChoice, Effective;
    UpsertChoice(votes, row, id, user);
    EffectiveAppend(history, w, id, user);
  }

  /** What a step that records a write does to the vote table: an upsert of that write, except that an
      automatic vote leaves an existing row alone. Any other step leaves the table as it is. */
  lemma StepWrites(s: State, step: Step)
    ensures var t := Apply(s, step);
      if t.history == s.history then t.votes == s.votes
      else
        var w := t.history[|s.history|];
        var row := VoteRow(w.proposal, w.user, if w.Cast? then w.choice else Yes, 1);
        && t.history == s.history + [w]
        && t.votes == if w.Cast? then Upsert(s.votes, row) else InsertIfAbsent(s.votes, row)
  {
    hide Upsert, InsertIfAbsent;
  }

  lemma StepTables(s: State, step: Step)
    requires Inv(s)
    ensures var t := Apply(s, step);
      && Unique(t.votes) && WeightOne(t.votes)
      && forall id, user :: RowChoice(t.votes, id, user) == Effective(t.history, id, user)
  {
    StepWrites(s, step);
    hide Apply, Unique, WeightOne, Upsert, RowChoice, Effective;
    var t := Apply(s, step);
    if t.history != s.history {
      var w := t.history[|s.history|];
      var row := VoteRow(w.proposal, w.user, if w.Cast? then w.choice else Yes, 1);
      if w.Cast? || RowChoice(s.votes, w.proposal, w.user) == None {
        AppendWhenAbsent(s.votes, row);
        UpsertUnique(s.votes, row);
        forall id, user ensures RowChoice(t.votes, id, user) == Effective(t.history, id, user) {
          UpsertKeepsInv(s.votes, row, s.history, w, id, user);
        }
      } else {
        forall id, user ensures RowChoice(t.votes, id, user) == Effective(t.history, id, user) {
          EffectiveAppend(s.history, w, id, user);
        }
      }
    }
  }

  lemma StepInv(s: State, step: Step)
    requires Inv(s)
    ensures Inv(Apply(s, step))
  {
    hide Unique, WeightOne, Upsert, InsertIfAbsent, RowChoice, Effective;
    StepTables(s, step);
  }

  lemma AppendWhenAbsent(votes: seq<VoteRow>, row: VoteRow)
    ensures RowChoice(votes, row.proposal, row.user) == None ==> votes + [row] == Upsert(votes, row)
  {
    if RowChoice(votes, row.proposal, row.user) == None {
      AppendIsUpsert(votes, row);
    }
  }

  lemma {:induction false} RunInv(s: State, steps: seq<Step>)
    requires Inv(s)
    ensures Inv(Exec(s, steps))
    decreases |steps|
  {
    hide Inv, Apply;
    if steps != [] {
      RunInv(s, steps[..|steps| - 1]);
      StepInv(Exec(s, steps[..|steps| - 1]), steps[|steps| - 1]);
    }
  }

  lemma InitInv(now: int)
    ensures Inv(Init(now))
  {
  }

  // ----- Results over every run -----

  lemma ChoosersAgree(s: State, id: string, choice: Choice)
    requires Inv(s)
    ensures UsersIn(s.votes, id, choice) == VotersFor(s.history, id, choice)
    ensures SumWeights(s.votes, id, choice) == |VotersFor(s.history, id, choice)|
  {
    SumCountsUsers(s.votes, id, choice);
    hide UsersIn, RowChoice, Effective, SumWeights, Voters;
    forall u ensures u in UsersIn(s.votes, id, choice) <==> u in VotersFor(s.history, id, choice) {
      UsersInChoice(s.votes, id, choice, u);
      EffectiveIffVoter(s.history, id, u);
    }
  }

  lemma VotersSplit(history: seq<Written>, id: string)
    ensures |Voters(history, id)| ==
      |VotersFor(history, id, Yes)| + |VotersFor(history, id, No)| + |VotersFor(history, id, Abstain)|
  {
    hide Effective, Voters;
    var y, n, a := VotersFor(history, id, Yes), VotersFor(history, id, No), VotersFor(history, id, Abstain);
    forall u ensures u in Voters(history, id) <==> u in y + n + a {
      EffectiveIffVoter(history, id, u);
      if u in Voters(history, id) {
        match Effective(history, id, u).value
        case Yes => assert u in y;
        case No => assert u in n;
        case Abstain => assert u in a;
      }
    }
    assert Voters(history, id) == y + n + a;
    assert y !! n && (y + n) !! a;
    assert |y + n + a| == |y + n| + |a| && |y + n| == |y| + |n|;
  }

  /** Tally refinement: in every reachable state the three sums are the numbers of voters whose replayed
      vote is yes, no and abstain, and the total is the number of distinct voters. */
  lemma TallyIsReplay(s: State, id: string)
    requires Inv(s) && id in s.proposals
    ensures var r := ResultsOf(s, id).value;
      && r.yes == |VotersFor(s.history, id, Yes)|
      && r.no == |VotersFor(s.history, id, No)|
      && r.abstain == |VotersFor(s.history, id, Abstain)|
      && r.total == |Voters(s.history, id)|
      && (r.quorumMet <==> |Voters(s.history, id)| >= s.proposals[id].quorum)
      && r.passed == None
  {
    hide VotersFor, Voters, SumWeights;
    ChoosersAgree(s, id, Yes);
    ChoosersAgree(s, id, No);
    ChoosersAgree(s, id, Abstain);
    VotersSplit(s.history, id);
  }

  /** The same for every run from the empty database, whatever the interleaving. */
  lemma RunTallyIsReplay(now: int, steps: seq<Step>, id: string)
    requires id in Exec(Init(now), steps).proposals
    ensures var s := Exec(Init(now), steps);
      var r := ResultsOf(s, id).value;
      && r.yes == |VotersFor(s.history, id, Yes)|
      && r.no == |VotersFor(s.history, id, No)|
      && r.abstain == |VotersFor(s.history, id, Abstain)|
      && r.total == |Voters(s.history, id)|
  {
    hide Inv, Exec, ResultsOf, Voters, VotersFor;
    InitInv(now);
    RunInv(Init(now), steps);
    TallyIsReplay(Exec(Init(now), steps), id);
  }

  /** The outcome a report states: empty until the proposal is decided, then whether it passed. */
  lemma ReportedOutcome(p: Proposal, votes: seq<VoteRow>, id: string)
    ensures var r := Report(p, votes, id);
      && (r.passed == Some(true) <==> p.status == Passed)
      && (r.passed == Some(false) <==> p.status == Rejected)
      && (r.passed == None <==> p.status == Active || p.status == Cancelled)
  {
  }

  lemma InsertedRow(s: State, step: Step)
    requires step.InsertProposal? && step.id !in s.proposals && step.id in Apply(s, step).proposals
    ensures Apply(s, step).proposals[step.id]
         == Proposal(step.proposer, Active, if step.quorum >= 1 then step.quorum else 5, step.deadline)
  {
  }

  /** The quorum a proposal is created with decides its reports in every run: when none is asked for, exactly five
      distinct voters are needed. */
  lemma CreatedQuorum(now: int, steps: seq<Step>, i: nat)
    requires i < |steps| && steps[i].InsertProposal?
    requires var id := steps[i].id;
      id !in Exec(Init(now), steps[..i]).proposals && id in Exec(Init(now), steps[..i + 1]).proposals
    ensures var s := Exec(Init(now), steps);
      var id, quorum := steps[i].id, steps[i].quorum;
      && id in s.proposals
      && s.proposals[id].proposer == steps[i].proposer && s.proposals[id].deadline == steps[i].deadline
      && (ResultsOf(s, id).value.quorumMet <==> |Voters(s.history, id)| >= if quorum >= 1 then quorum else 5)
  {
    hide Exec, Apply, Inv, ResultsOf, Voters;
    var before, id := Exec(Init(now), steps[..i]), steps[i].id;
    assert steps[..i + 1] == steps[..i] + [steps[i]];
    ExecStep(Init(now), steps[..i], steps[i]);
    InsertedRow(before, steps[i]);
    var after := Apply(before, steps[i]);
    assert steps == steps[..i + 1] + steps[i + 1..];
    ExecConcat(Init(now), steps[..i + 1], steps[i + 1..]);
    RunGrows(after, steps[i + 1..], id);
    InitInv(now);
    RunInv(Init(now), steps);
    TallyIsReplay(Exec(Init(now), steps), id);
  }

  /** What a report shows for a choice. */
  function Shown(r: Results, choice: Choice): int {
    match choice
    case Yes => r.yes
    case No => r.no
    case Abstain => r.abstain
  }

  /** A vote that lands moves the report by one out of the user's recorded choice and into the new one. */
  lemma CastMovesTally(s: State, call: nat)
    requires Inv(s) && call in s.casting
    ensures var b, t := s.casting[call], Apply(s, CastWrite(call, Done));
      var id := b.proposal;
      && id in s.proposals && id in t.proposals
      && forall choice :: Shown(ResultsOf(t, id).value, choice) == Shown(ResultsOf(s, id).value, choice)
           - (if RowChoice(s.votes, id, b.user) == Some(choice) then 1 else 0)
           + (if b.choice == choice then 1 else 0)
  {
    hide Upsert, SumWeights, RowChoice, Effective;
    var b := s.casting[call];
    forall choice: Choice {
      SumUpsert(s.votes, VoteRow(b.proposal, b.user, b.choice, 1), b.proposal, choice);
    }
  }

  /** In every interleaving, once a user has an explicit vote on a proposal the table shows the last one:
      the automatic yes of the proposer never overwrites it, however late it lands. */
  lemma ExplicitVoteSurvives(now: int, steps: seq<Step>, j: nat)
    requires var h := Exec(Init(now), steps).history;
      && j < |h| && h[j].Cast?
      && forall k :: j < k < |h| && h[k].Cast? ==> h[k].proposal != h[j].proposal || h[k].user != h[j].user
    ensures var s := Exec(Init(now), steps);
      RowChoice(s.votes, s.history[j].proposal, s.history[j].user) == Some(s.history[j].choice)
  {
    hide Exec, RowChoice, Effective;
    InitInv(now);
    RunInv(Init(now), steps);
    LastCastCounts(Exec(Init(now), steps).history, j);
  }

  /** Proposals never change and the history only grows. */
  lemma {:induction false} RunGrows(s: State, steps: seq<Step>, id: string)
    requires id in s.proposals
    ensures var t := Exec(s, steps);
      id in t.proposals && t.proposals[id] == s.proposals[id] && s.history <= t.history && s.now <= t.now
    decreases |steps|
  {
    hide Upsert, InsertIfAbsent;
    if steps != [] {
      RunGrows(s, steps[..|steps| - 1], id);
    }
  }

  /** Although votes may be changed, the total never falls, and a met quorum stays met. */
  lemma QuorumLatched(s: State, steps: seq<Step>, id: string)
    requires Inv(s) && id in s.proposals
    ensures id in Exec(s, steps).proposals
    ensures var r, q := ResultsOf(s, id).value, ResultsOf(Exec(s, steps), id).value;
      r.total <= q.total && (r.quorumMet ==> q.quorumMet)
  {
    hide Inv, Exec, SumWeights;
    RunGrows(s, steps, id);
    RunInv(s, steps);
    var t := Exec(s, steps);
    TallyIsReplay(s, id);
    TallyIsReplay(t, id);
    assert Voters(s.history, id) <= Voters(t.history, id);
    SubsetSize(Voters(s.history, id), Voters(t.history, id));
  }

  // ----- Closing -----

  /** A write under way that would change the proposal's votes when it lands: a cast that differs from the
      user's recorded vote, or an automatic vote for a proposer without one. */
  ghost predicate Unsettled(s: State, id: string) {
    || (exists call :: IsDifferingCast(s, id, call))
    || (exists call :: IsMissingAuto(s, id, call))
  }

  predicate IsMissingAuto(s: State, id: string, call: nat) {
    && call in s.creating && s.creating[call] == id && id in s.proposals
    && RowChoice(s.votes, id, s.proposals[id].proposer) == None
  }

  predicate IsDifferingCast(s: State, id: string, call: nat) {
    && call in s.casting && s.casting[call].proposal == id
    && RowChoice(s.votes, id, s.casting[call].user) != Some(s.casting[call].choice)
  }

  ghost predicate SameCounts(s: State, t: State, id: string) {
    && SumWeights(s.votes, id, Yes) == SumWeights(t.votes, id, Yes)
    && SumWeights(s.votes, id, No) == SumWeights(t.votes, id, No)
    && SumWeights(s.votes, id, Abstain) == SumWeights(t.votes, id, Abstain)
  }

  /** An upsert that repeats the recorded vote, or concerns another proposal, moves nothing here. */
  lemma UpsertElsewhere(votes: seq<VoteRow>, row: VoteRow, id: string, choice: Choice, user: string)
    requires Unique(votes) && WeightOne(votes) && row.weight == 1
    requires row.proposal == id ==> RowChoice(votes, id, row.user) == Some(row.choice)
    ensures SumWeights(Upsert(votes, row), id, choice) == SumWeights(votes, id, choice)
    ensures RowChoice(Upsert(votes, row), id, user) == RowChoice(votes, id, user)
  {
    hide Upsert, SumWeights, RowChoice;
    SumUpsert(votes, row, id, choice);
    UpsertChoice(votes, row, id, user);
  }

  /** Past the deadline a settled proposal keeps each user's vote and its sums through any step. */
  lemma StepSettled(s: State, step: Step, id: string, choice: Choice, user: string)
    requires Inv(s) && id in s.proposals && s.now > s.proposals[id].deadline && !Unsettled(s, id)
    ensures var t := Apply(s, step);
      && SumWeights(t.votes, id, choice) == SumWeights(s.votes, id, choice)
      && RowChoice(t.votes, id, user) == RowChoice(s.votes, id, user)
  {
    hide Upsert, SumWeights, RowChoice, Effective;
    var t := Apply(s, step);
    if step.CastWrite? && t.votes != s.votes {
      var b := s.casting[step.call];
      assert !IsDifferingCast(s, id, step.call);
      UpsertElsewhere(s.votes, VoteRow(b.proposal, b.user, b.choice, 1), id, choice, user);
    } else if step.AutoVote? && t.votes != s.votes {
      var p := s.creating[step.call];
      assert !IsMissingAuto(s, id, step.call);
      var row := VoteRow(p, s.proposals[p].proposer, Yes, 1);
      AppendWhenAbsent(s.votes, row);
      UpsertElsewhere(s.votes, row, id, choice, user);
    }
  }

  lemma StaysSettled(s: State, step: Step, id: string)
    requires Inv(s) && id in s.proposals && s.now > s.proposals[id].deadline && !Unsettled(s, id)
    ensures !Unsettled(Apply(s, step), id)
  {
    var t := Apply(s, step);
    hide Upsert, SumWeights, RowChoice, Inv, InsertIfAbsent;
    forall user ensures RowChoice(t.votes, id, user) == RowChoice(s.votes, id, user) {
      StepSettled(s, step, id, Yes, user);
    }
    forall call ensures !IsDifferingCast(t, id, call) && !IsMissingAuto(t, id, call) {
      assert !IsDifferingCast(s, id, call) && !IsMissingAuto(s, id, call);
    }
  }

  lemma {:induction false} RunSettled(s: State, steps: seq<Step>, id: string)
    requires Inv(s) && id in s.proposals && s.now > s.proposals[id].deadline && !Unsettled(s, id)
    ensures SameCounts(s, Exec(s, steps), id) && !Unsettled(Exec(s, steps), id)
    decreases |steps|
  {
    hide Inv, Apply, Unsettled, SumWeights;
    if steps != [] {
      var before, last := Exec(s, steps[..|steps| - 1]), steps[|steps| - 1];
      RunSettled(s, steps[..|steps| - 1], id);
      RunInv(s, steps[..|steps| - 1]);
      RunGrows(s, steps[..|steps| - 1], id);
      StaysSettled(before, last, id);
      StepSettled(before, last, id, Yes, "");
      StepSettled(before, last, id, No, "");
      StepSettled(before, last, id, Abstain, "");
    }
  }

  /** An unsettled write changes the counts when it lands. */
  lemma WriteMoves(votes: seq<VoteRow>, row: VoteRow)
    requires Unique(votes) && WeightOne(votes) && row.weight == 1
    requires RowChoice(votes, row.proposal, row.user) != Some(row.choice)
    ensures SumWeights(Upsert(votes, row), row.proposal, row.choice) == SumWeights(votes, row.proposal, row.choice) + 1
  {
    SumUpsert(votes, row, row.proposal, row.choice);
  }

  lemma UnsettledMoves(s: State, id: string) returns (steps: seq<Step>)
    requires Inv(s) && id in s.proposals && Unsettled(s, id)
    ensures !SameCounts(s, Exec(s, steps), id)
  {
    hide Upsert, SumWeights, RowChoice, Effective;
    var row: VoteRow;
    if exists call :: IsDifferingCast(s, id, call) {
      var call :| IsDifferingCast(s, id, call);
      var b := s.casting[call];
      row := VoteRow(b.proposal, b.user, b.choice, 1);
      steps := [CastWrite(call, Done)];
    } else {
      var call :| IsMissingAuto(s, id, call);
      row := VoteRow(id, s.proposals[id].proposer, Yes, 1);
      steps := [AutoVote(call, Done)];
      AppendWhenAbsent(s.votes, row);
    }
    ExecOne(s, steps[0]);
    WriteMoves(s.votes, row);
    match row.choice
    case Yes =>
    case No =>
    case Abstain =>
  }

  ghost predicate CanChange(s: State, id: string) {
    exists steps :: !SameCounts(s, Exec(s, steps), id)
  }

  /** Past the deadline the counts can still change exactly when a write that passed its checks in time is
      under way and would change a recorded vote; otherwise every later report shows the same counts. */
  lemma ClosedUnlessUnderWay(s: State, id: string)
    requires Inv(s) && id in s.proposals && s.now > s.proposals[id].deadline
    ensures CanChange(s, id) <==> Unsettled(s, id)
  {
    hide Inv, Exec, Unsettled, SameCounts;
    if Unsettled(s, id) {
      var steps := UnsettledMoves(s, id);
    } else {
      forall steps ensures SameCounts(s, Exec(s, steps), id) {
        RunSettled(s, steps, id);
      }
    }
  }

  // ----- A vote that lands late -----

  const LATE_VOTE: seq<Step> := [
    InsertProposal(0, "p", "u", "t", 2, 10, 0, Done), AutoVote(0, Done), CastRead(1, "p", "v", No), Tick(11),
    CastWrite(1, Done)]

  const TWO_NEEDED := Proposal("u", Active, 2, 10)

  const VOTE_UNDER_WAY := State(11, map["p" := TWO_NEEDED], [VoteRow("p", "u", Yes, 1)],
                                map[1 := Ballot("p", "v", No)], map[], [Auto("p", "u")])

  lemma BeforeTheVote()
    ensures Exec(Init(0), LATE_VOTE[..4]) == VOTE_UNDER_WAY
  {
    hide Exec;
    var a, b, c, d := LATE_VOTE[0], LATE_VOTE[1], LATE_VOTE[2], LATE_VOTE[3];
    assert LATE_VOTE[..4] == [a] + [b] + [c] + [d];
    ExecOne(Init(0), a);
    ExecStep(Init(0), [a], b);
    ExecStep(Init(0), [a] + [b], c);
    ExecStep(Init(0), [a] + [b] + [c], d);
  }

  lemma SumOfRows(row: VoteRow, rest: seq<VoteRow>, id: string, choice: Choice)
    ensures SumWeights([row] + rest, id, choice)
         == SumWeights(rest, id, choice) + if row.proposal == id && row.choice == choice then row.weight else 0
  {
    assert ([row] + rest)[1..] == rest;
  }

  lemma ReportOfTwo(p: Proposal, rows: seq<VoteRow>)
    requires rows == [VoteRow("p", "u", Yes, 1)] || rows == [VoteRow("p", "u", Yes, 1), VoteRow("p", "v", No, 1)]
    ensures Report(p, rows, "p") == Results(p, 1, |rows| - 1, 0, |rows|, |rows| >= p.quorum, Report(p, [], "p").passed)
  {
    forall choice: Choice
      ensures SumWeights(rows, "p", choice) == match choice case Yes => 1 case No => |rows| - 1 case Abstain => 0
    {
      SumOfRows(rows[0], rows[1..], "p", choice);
      assert rows == [rows[0]] + rows[1..];
      if |rows| == 2 {
        SumOfRows(rows[1], [], "p", choice);
        assert rows[1..] == [rows[1]] + [];
      }
    }
  }

  /** It does happen: past the deadline the report shows one yes and no quorum; then a vote that was checked in
      time lands, and the report shows a no as well and a met quorum. */
  lemma CountsChangeAfterDeadline()
    ensures var s, t := Exec(Init(0), LATE_VOTE[..4]), Exec(Init(0), LATE_VOTE);
      && s.now == 11 && s.proposals == map["p" := TWO_NEEDED] && Unsettled(s, "p")
      && ResultsOf(s, "p") == Some(Results(TWO_NEEDED, 1, 0, 0, 1, false, None))
      && ResultsOf(t, "p") == Some(Results(TWO_NEEDED, 1, 1, 0, 2, true, None))
  {
    hide Exec;
    BeforeTheVote();
    assert LATE_VOTE == LATE_VOTE[..4] + [LATE_VOTE[4]];
    ExecStep(Init(0), LATE_VOTE[..4], LATE_VOTE[4]);
    var s := VOTE_UNDER_WAY;
    assert IsDifferingCast(s, "p", 1);
    assert Upsert(s.votes, VoteRow("p", "v", No, 1)) == s.votes + [VoteRow("p", "v", No, 1)] by {
      AppendWhenAbsent(s.votes, VoteRow("p", "v", No, 1));
    }
    ReportOfTwo(TWO_NEEDED, s.votes);
    ReportOfTwo(TWO_NEEDED, s.votes + [VoteRow("p", "v", No, 1)]);
  }
}
