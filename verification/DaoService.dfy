/** The DAO service as methods over the tables; scripts say what other requests do between statements. */
module DaoService {
  import opened Common
  import opened DaoState
  import opened DaoProperties

  datatype CreateResult = TitleRequired | DeadlinePassed | InsertFailed | Created(id: string)

  datatype CastResult = InvalidVote | NoProposal | NotActive | VotingClosed | WriteFailed | Voted(ballot: Ballot)

  function ParseVote(vote: string): Option<Choice> {
    if vote == "yes" then Some(Yes)
    else if vote == "no" then Some(No)
    else if vote == "abstain" then Some(Abstain)
    else None
  }

  predicate AvoidsCast(steps: seq<Step>, call: nat) {
    forall i :: 0 <= i < |steps| ==> (steps[i].CastRead? || steps[i].CastWrite?) ==> steps[i].call != call
  }

  predicate AvoidsCreate(steps: seq<Step>, call: nat) {
    forall i :: 0 <= i < |steps| ==> (steps[i].InsertProposal? || steps[i].AutoVote?) ==> steps[i].call != call
  }

  lemma {:induction false} OthersKeepCast(s: State, steps: seq<Step>, call: nat)
    requires AvoidsCast(steps, call) && call in s.casting
    ensures call in Exec(s, steps).casting && Exec(s, steps).casting[call] == s.casting[call]
    decreases |steps|
  {
    hide Upsert, InsertIfAbsent;
    if steps != [] {
      OthersKeepCast(s, steps[..|steps| - 1], call);
    }
  }

  lemma {:induction false} OthersKeepCreate(s: State, steps: seq<Step>, call: nat)
    requires AvoidsCreate(steps, call) && call in s.creating
    ensures call in Exec(s, steps).creating && Exec(s, steps).creating[call] == s.creating[call]
    decreases |steps|
  {
    hide Upsert, InsertIfAbsent;
    if steps != [] {
      OthersKeepCreate(s, steps[..|steps| - 1], call);
    }
  }

  /** A vote of a user without a recorded one adds one to its choice in the reports and to nothing else. */
  lemma VoteCounted(s: State, call: nat, b: Ballot, between: seq<Step>)
    requires Inv(s) && CanCast(s, b.proposal) && call !in s.casting && AvoidsCast(between, call)
    ensures var before := Exec(s, [CastRead(call, b.proposal, b.user, b.choice)] + between);
      var after := Apply(before, CastWrite(call, Done));
      && b.proposal in before.proposals && b.proposal in after.proposals
      && (RowChoice(before.votes, b.proposal, b.user) == None ==>
            var p, q := ResultsOf(before, b.proposal), ResultsOf(after, b.proposal);
            && p.Some? && q.Some?
            && q.value.yes == p.value.yes + (if b.choice == Yes then 1 else 0)
            && q.value.no == p.value.no + (if b.choice == No then 1 else 0)
            && q.value.abstain == p.value.abstain + (if b.choice == Abstain then 1 else 0))
  {
    var first := CastRead(call, b.proposal, b.user, b.choice);
    ExecOne(s, first);
    ExecConcat(s, [first], between);
    OthersKeepCast(Apply(s, first), between, call);
    assert Apply(s, first).casting[call] == b;
    hide Apply, Inv;
    RunInv(s, [first] + between);
    RunGrows(s, [first] + between, b.proposal);
    var before := Exec(s, [first] + between);
    hide Exec, SumWeights, RowChoice, Report;
    CastMovesTally(before, call);
    var p, q := ResultsOf(before, b.proposal).value, ResultsOf(Apply(before, CastWrite(call, Done)), b.proposal).value;
    assert Shown(p, Yes) == p.yes && Shown(p, No) == p.no && Shown(p, Abstain) == p.abstain;
    assert Shown(q, Yes) == q.yes && Shown(q, No) == q.no && Shown(q, Abstain) == q.abstain;
  }

  class DaoLedger {
    var now: int
    var proposals: map<string, Proposal>
    var votes: seq<VoteRow>
    var casting: map<nat, Ballot>
    var creating: map<nat, string>
    var history: seq<Written>

    function Snapshot(): State
      reads this
    {
      State(now, proposals, votes, casting, creating, history)
    }

    constructor (start: int)
      ensures Snapshot() == Init(start)
    {
      now, proposals, votes, casting, creating, history := start, map[], [], map[], map[], [];
    }

    method Perform(step: Step)
      modifies this
      ensures Snapshot() == Apply(old(Snapshot()), step)
    {
      var t := Apply(Snapshot(), step);
      now, proposals, votes := t.now, t.proposals, t.votes;
      casting, creating, history := t.casting, t.creating, t.history;
    }

    /** What other requests do meanwhile. */
    method Interleave(others: seq<Step>)
      modifies this
      ensures Snapshot() == Exec(old(Snapshot()), others)
    {
      hide Apply;
      for i := 0 to |others|
        invariant Snapshot() == Exec(old(Snapshot()), others[..i])
      {
        assert others[..i + 1] == others[..i] + [others[i]];
        ExecStep(old(Snapshot()), others[..i], others[i]);
        Perform(others[i]);
      }
      assert others[..|others|] == others;
    }

    /** `CreateProposal`: validate, insert the proposal, then insert the proposer's automatic yes; a failure
        of the second insert is only logged. `id` is the fresh identifier. */
    method CreateProposal(call: nat, id: string, proposer: string, title: string, quorum: int, deadline: int,
                          insert: Outcome, between: seq<Step>, auto: Outcome) returns (r: CreateResult)
      requires id !in proposals && call !in creating && AvoidsCreate(between, call)
      modifies this
      ensures r.TitleRequired? <==> title == ""
      ensures r.DeadlinePassed? <==> title != "" && deadline < old(now)
      ensures r.TitleRequired? || r.DeadlinePassed? ==> Snapshot() == old(Snapshot())
      ensures r.InsertFailed? <==> title != "" && deadline >= old(now) && !insert.Done?
      ensures r.InsertFailed? ==>
        Snapshot() == Apply(old(Snapshot()),
          InsertProposal(call, id, proposer, title, quorum, deadline, old(now), insert))
      ensures r.Created? ==>
        && Snapshot() == Exec(old(Snapshot()),
             [InsertProposal(call, id, proposer, title, quorum, deadline, old(now), insert)] + between +
             [AutoVote(call, auto)])
        && r.id == id && id in proposals
        && proposals[id] == Proposal(proposer, Active, if quorum >= 1 then quorum else 5, deadline)
        && (auto.Done? ==> RowChoice(votes, id, proposer).Some?)
      ensures r.InsertFailed? ==>
        && votes == old(votes)
        && proposals == if Applied(insert)
           then old(proposals)[id := Proposal(proposer, Active, if quorum >= 1 then quorum else 5, deadline)]
           else old(proposals)
    {
      if title == "" {
        return TitleRequired;
      }
      if deadline < now {
        return DeadlinePassed;
      }
      ghost var start := Snapshot();
      ghost var first := InsertProposal(call, id, proposer, title, quorum, deadline, now, insert);
      if Applied(insert) {
        proposals := proposals[id := Proposal(proposer, Active, if quorum < 1 then 5 else quorum, deadline)];
      }
      if !insert.Done? {
        return InsertFailed;
      }
      creating := creating[call := id];
      assert Snapshot() == Apply(start, first);
      ghost var inserted := Snapshot();
      OthersKeepCreate(inserted, between, call);
      RunGrows(inserted, between, id);
      hide Apply;
      ExecOne(start, first);
      ExecConcat(start, [first], between);
      ExecStep(start, [first] + between, AutoVote(call, auto));
      Interleave(between);
      RegisterProposer(call, auto);
      return Created(id);
    }

    /** The automatic yes: INSERT ... ON CONFLICT DO NOTHING. */
    method RegisterProposer(call: nat, auto: Outcome)
      requires call in creating && creating[call] in proposals
      modifies this
      ensures Snapshot() == Apply(old(Snapshot()), AutoVote(call, auto))
      ensures proposals == old(proposals)
      ensures var id := old(creating)[call];
        var recorded := RowChoice(old(votes), id, proposals[id].proposer);
        RowChoice(votes, id, proposals[id].proposer)
          == if Applied(auto) && recorded == None then Some(Yes) else recorded
    {
      var id := creating[call];
      var row := VoteRow(id, proposals[id].proposer, Yes, 1);
      if Applied(auto) {
        AppendWhenAbsent(votes, row);
        UpsertChoice(votes, row, row.proposal, row.user);
        votes := InsertIfAbsent(votes, row);
        history := history + [Auto(id, row.user)];
      }
      creating := creating - {call};
    }

    /** `CastVote`: validate, read the proposal, check status and deadline, then upsert the vote. */
    method CastVote(call: nat, id: string, user: string, vote: string, between: seq<Step>, write: Outcome)
      returns (r: CastResult)
      requires call !in casting && AvoidsCast(between, call)
      modifies this
      ensures r.InvalidVote? <==> vote != "yes" && vote != "no" && vote != "abstain"
      ensures r.NoProposal? <==> !r.InvalidVote? && id !in old(proposals)
      ensures r.NotActive? <==> !r.InvalidVote? && id in old(proposals) && old(proposals)[id].status != Active
      ensures r.VotingClosed? <==>
        && !r.InvalidVote? && id in old(proposals) && old(proposals)[id].status == Active
        && old(now) > old(proposals)[id].deadline
      ensures r.InvalidVote? || r.NoProposal? || r.NotActive? || r.VotingClosed? ==> Snapshot() == old(Snapshot())
      ensures r.WriteFailed? || r.Voted? ==>
        ParseVote(vote).Some? && Snapshot() == Exec(old(Snapshot()),
          [CastRead(call, id, user, ParseVote(vote).value)] + between + [CastWrite(call, write)])
      ensures r.Voted? ==>
        && r.ballot.proposal == id && r.ballot.user == user && RowChoice(votes, id, user) == Some(r.ballot.choice)
        && (vote == "yes" ==> r.ballot.choice == Yes) && (vote == "no" ==> r.ballot.choice == No)
        && (vote == "abstain" ==> r.ballot.choice == Abstain)
      ensures r.Voted? && Inv(old(Snapshot())) ==>
        var before := Exec(old(Snapshot()), [CastRead(call, id, user, r.ballot.choice)] + between);
        && id in before.proposals && id in proposals
        && (RowChoice(before.votes, id, user) == None ==>
              var p, q := ResultsOf(before, id), ResultsOf(Snapshot(), id);
              && p.Some? && q.Some?
              && q.value.yes == p.value.yes + (if vote == "yes" then 1 else 0)
              && q.value.no == p.value.no + (if vote == "no" then 1 else 0)
              && q.value.abstain == p.value.abstain + (if vote == "abstain" then 1 else 0))
    {
      var parsed := ParseVote(vote);
      if parsed == None {
        return InvalidVote;
      }
      if id !in proposals {
        return NoProposal;
      }
      var proposal := proposals[id];
      if proposal.status != Active {
        return NotActive;
      }
      if now > proposal.deadline {
        return VotingClosed;
      }
      ghost var start := Snapshot();
      ghost var first := CastRead(call, id, user, parsed.value);
      casting := casting[call := Ballot(id, user, parsed.value)];
      assert Snapshot() == Apply(start, first);
      ghost var read := Snapshot();
      OthersKeepCast(read, between, call);
      hide Apply, ResultsOf, Exec, Inv, AvoidsCast;
      ExecOne(start, first);
      ExecConcat(start, [first], between);
      ExecStep(start, [first] + between, CastWrite(call, write));
      Interleave(between);
      WriteVote(call, write);
      if !write.Done? {
        return WriteFailed;
      }
      if Inv(start) {
        VoteCounted(start, call, Ballot(id, user, parsed.value), between);
      }
      return Voted(Ballot(id, user, parsed.value));
    }

    /** The upsert of an explicit vote. */
    method WriteVote(call: nat, write: Outcome)
      requires call in casting
      modifies this
      ensures Snapshot() == Apply(old(Snapshot()), CastWrite(call, write))
      ensures Applied(write) ==> var b := old(casting)[call]; RowChoice(votes, b.proposal, b.user) == Some(b.choice)
    {
      var b := casting[call];
      if Applied(write) {
        UpsertChoice(votes, VoteRow(b.proposal, b.user, b.choice, 1), b.proposal, b.user);
        votes := Upsert(votes, VoteRow(b.proposal, b.user, b.choice, 1));
        history := history + [Cast(b.proposal, b.user, b.choice)];
      }
      casting := casting - {call};
    }

    /** `GetResults`: read the proposal, then sum the votes in a second statement, which may fail. The report is
        the one of the moment of the sums, and counts distinct voters by their replayed votes. */
    method GetResults(id: string, between: seq<Step>, tallied: bool) returns (r: Option<Results>)
      requires Inv(Snapshot())
      modifies this
      ensures id !in old(proposals) ==> r == None && Snapshot() == old(Snapshot())
      ensures id in old(proposals) ==> Snapshot() == Exec(old(Snapshot()), between) && (r.Some? <==> tallied)
      ensures r.Some? ==>
        && r == ResultsOf(Snapshot(), id) && id in proposals && r.value.proposal == proposals[id]
        && r.value.yes == |VotersFor(history, id, Yes)| && r.value.no == |VotersFor(history, id, No)|
        && r.value.abstain == |VotersFor(history, id, Abstain)| && r.value.total == |Voters(history, id)|
        && (r.value.quorumMet <==> |Voters(history, id)| >= proposals[id].quorum)
    {
      hide Apply;
      if id !in proposals {
        return None;
      }
      var proposal := proposals[id];
      RunGrows(Snapshot(), between, id);
      RunInv(Snapshot(), between);
      Interleave(between);
      if !tallied {
        return None;
      }
      TallyIsReplay(Snapshot(), id);
      return Some(Report(proposal, votes, id));
    }
  }
}
