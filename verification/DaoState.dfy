/** The proposal and vote tables as a state machine, one database statement per step. */
module DaoState {
  import opened Common

  datatype Choice = Yes | No | Abstain

  datatype ProposalStatus = Active | Passed | Rejected | Cancelled

  datatype Proposal = Proposal(proposer: string, status: ProposalStatus, quorum: int, deadline: int)

  datatype VoteRow = VoteRow(proposal: string, user: string, choice: Choice, weight: int)

  /** A vote write that ran: the proposer's automatic yes, or an explicit vote. */
  datatype Written = Auto(proposal: string, user: string) | Cast(proposal: string, user: string, choice: Choice)

  /** A request between its two statements: a vote that passed its checks, or a proposal whose
      automatic vote is still to come. */
  datatype Ballot = Ballot(proposal: string, user: string, choice: Choice)

  datatype State = State(now: int, proposals: map<string, Proposal>, votes: seq<VoteRow>,
                         casting: map<nat, Ballot>, creating: map<nat, string>, history: seq<Written>)

  datatype Step =
    | Tick(to: int)
    | InsertProposal(call: nat, id: string, proposer: string, title: string, quorum: int, deadline: int,
                     checkedAt: int, outcome: Outcome)
    | AutoVote(call: nat, outcome: Outcome)
    | CastRead(call: nat, id: string, user: string, choice: Choice)
    | CastWrite(call: nat, outcome: Outcome)

  function Init(now: int): State {
    State(now, map[], [], map[], map[], [])
  }

  predicate SameKey(row: VoteRow, proposal: string, user: string) {
    row.proposal == proposal && row.user == user
  }

  /** The vote recorded for (proposal, user). */
  function RowChoice(votes: seq<VoteRow>, proposal: string, user: string): Option<Choice> {
    if votes == [] then None
    else if SameKey(votes[0], proposal, user) then Some(votes[0].choice)
    else RowChoice(votes[1..], proposal, user)
  }

  /** INSERT ... ON CONFLICT (proposal_id, user_id) DO UPDATE. */
  function Upsert(votes: seq<VoteRow>, row: VoteRow): seq<VoteRow> {
    if votes == [] then [row]
    else if SameKey(votes[0], row.proposal, row.user) then [row] + votes[1..]
    else [votes[0]] + Upsert(votes[1..], row)
  }

  /** INSERT ... ON CONFLICT (proposal_id, user_id) DO NOTHING. */
  function InsertIfAbsent(votes: seq<VoteRow>, row: VoteRow): seq<VoteRow> {
    if RowChoice(votes, row.proposal, row.user).Some? then votes else votes + [row]
  }

  /** SUM(CASE WHEN vote = choice THEN weight ELSE 0 END) over the rows of the proposal. */
  function SumWeights(votes: seq<VoteRow>, proposal: string, choice: Choice): int {
    if votes == [] then 0
    else
      var rest := SumWeights(votes[1..], proposal, choice);
      if votes[0].proposal == proposal && votes[0].choice == choice then votes[0].weight + rest else rest
  }

  function EffectiveQuorum(quorum: int): int {
    if quorum < 1 then 5 else quorum
  }

  predicate CanCast(s: State, id: string) {
    id in s.proposals && s.proposals[id].status == Active && s.now <= s.proposals[id].deadline
  }

  /** One step. A step that does not apply leaves the state alone, so every sequence of steps is a run. */
  function Apply(s: State, step: Step): State {
    match step
    case Tick(to) => if to > s.now then s.(now := to) else s
    case InsertProposal(call, id, proposer, title, quorum, deadline, checkedAt, outcome) =>
      if title == "" || checkedAt > s.now || deadline < checkedAt || id in s.proposals || call in s.creating
         || !Applied(outcome) then s
      else
        var p := Proposal(proposer, Active, EffectiveQuorum(quorum), deadline);
        s.(proposals := s.proposals[id := p],
        creating := if outcome.Done? then s.creating[call := id] else s.creating)
    case AutoVote(call, outcome) =>
      if call !in s.creating || s.creating[call] !in s.proposals then s
      else if !Applied(outcome) then s.(creating := s.creating - {call})
      else
        var id := s.creating[call];
        var user := s.proposals[id].proposer;
        s.(votes := InsertIfAbsent(s.votes, VoteRow(id, user, Yes, 1)),
        creating := s.creating - {call},
        history := s.history + [Auto(id, user)])
    case CastRead(call, id, user, choice) =>
      if call in s.casting || !CanCast(s, id) then s
      else s.(casting := s.casting[call := Ballot(id, user, choice)])
    case CastWrite(call, outcome) =>
      if call !in s.casting then s
      else if !Applied(outcome) then s.(casting := s.casting - {call})
      else
        var b := s.casting[call];
        s.(votes := Upsert(s.votes, VoteRow(b.proposal, b.user, b.choice, 1)),
        casting := s.casting - {call},
        history := s.history + [Cast(b.proposal, b.user, b.choice)])
  }

  /** What the requests refuse: no title, a deadline already past, a vote that is not open. */
  lemma RefusedRequests(s: State, step: Step)
    ensures step.InsertProposal? && (step.title == "" || step.deadline < step.checkedAt) ==> Apply(s, step) == s
    ensures step.CastRead? && step.id in s.proposals ==>
      s.proposals[step.id].status != Active || s.now > s.proposals[step.id].deadline ==> Apply(s, step) == s
  {
  }

  function Exec(s: State, steps: seq<Step>): State
    decreases |steps|
  {
    if steps == [] then s else Apply(Exec(s, steps[..|steps| - 1]), steps[|steps| - 1])
  }

  lemma ExecStep(s: State, steps: seq<Step>, step: Step)
    ensures Exec(s, steps + [step]) == Apply(Exec(s, steps), step)
  {
    assert (steps + [step])[..|steps|] == steps;
  }

  lemma ExecOne(s: State, step: Step)
    ensures Exec(s, [step]) == Apply(s, step)
  {
    ExecStep(s, [], step);
    assert [] + [step] == [step];
  }

  lemma {:induction false} ExecConcat(s: State, a: seq<Step>, b: seq<Step>)
    ensures Exec(s, a + b) == Exec(Exec(s, a), b)
    decreases |b|
  {
    hide Apply;
    if b == [] {
      assert a + b == a;
    } else {
      var front, last := b[..|b| - 1], b[|b| - 1];
      ExecConcat(s, a, front);
      ExecStep(s, a + front, last);
      assert a + front + [last] == a + b;
      ExecStep(Exec(s, a), front, last);
      assert front + [last] == b;
    }
  }

  /** What `GetResults` reports; `passed` stays empty while the proposal is neither passed nor rejected. */
  datatype Results = Results(proposal: Proposal, yes: int, no: int, abstain: int, total: int,
                             quorumMet: bool, passed: Option<bool>)

  /** The report from a proposal row and the vote table. */
  function Report(p: Proposal, votes: seq<VoteRow>, id: string): Results {
    var yes, no, abstain := SumWeights(votes, id, Yes), SumWeights(votes, id, No), SumWeights(votes, id, Abstain);
    var total := yes + no + abstain;
    Results(p, yes, no, abstain, total, total >= p.quorum,
            if p.status == Passed then Some(true) else if p.status == Rejected then Some(false) else None)
  }

  function ResultsOf(s: State, id: string): Option<Results> {
    if id in s.proposals then Some(Report(s.proposals[id], s.votes, id)) else None
  }
}
