/** `dao_participation`: vote distribution and voter retention, also when fed the vote ledger itself. Lower-cased
    votes are taken as the library delivers them. */
module Participation {
  import opened Common
  import opened RealArith
  import opened Trends
  import Confidence
  import DaoState
  import DaoProperties
  import DaoService

  const KINDS := ["for", "against", "abstain"]

  function Distribution(col: seq<string>): map<string, nat> {
    map key | key in KINDS :: CountOf(col, key)
  }

  /** The vote loop of `dao_participation`: only the three known keys are counted. */
  method VoteDistribution(col: seq<string>) returns (counts: map<string, nat>)
    ensures counts == Distribution(col)
  {
    hide CountOf;
    EmptyDistribution();
    counts := map["for" := 0, "against" := 0, "abstain" := 0];
    for i := 0 to |col|
      invariant counts == Distribution(col[..i])
    {
      assert col[..i + 1] == col[..i] + [col[i]];
      forall key ensures CountOf(col[..i + 1], key) == CountOf(col[..i], key) + if col[i] == key then 1 else 0 {
        CountAppend(col[..i], col[i], key);
      }
      if col[i] in counts {
        counts := counts[col[i] := counts[col[i]] + 1];
      }
    }
    assert col[..|col|] == col;
  }

  lemma EmptyDistribution()
    ensures Distribution([]) == map["for" := 0, "against" := 0, "abstain" := 0]
  {
    assert forall key :: key in KINDS <==> key == KINDS[0] || key == KINDS[1] || key == KINDS[2];
  }

  /** The distribution never counts more votes than there are, and all of them exactly when every vote is
      one of the three known words. */
  lemma {:induction false} DistributionCovers(col: seq<string>)
    ensures CountOf(col, "for") + CountOf(col, "against") + CountOf(col, "abstain") <= |col|
    ensures CountOf(col, "for") + CountOf(col, "against") + CountOf(col, "abstain") == |col|
      <==> forall key :: key in col ==> key in KINDS
    decreases |col|
  {
    if col == [] {
    } else {
      var front, last := col[..|col| - 1], col[|col| - 1];
      assert col == front + [last];
      assert "for" != "against" && "for"[0] != "abstain"[0] && "against"[1] != "abstain"[1];
      assert last in KINDS <==> last == KINDS[0] || last == KINDS[1] || last == KINDS[2];
      DistributionCovers(front);
    }
  }

  function Distinct(col: seq<string>): set<string> {
    set voter | voter in col
  }

  function Returned(col: seq<string>): set<string> {
    set voter | voter in col && CountOf(col, voter) > 1
  }

  /** How one more vote moves the two sets. */
  lemma VoterSteps(col: seq<string>, x: string)
    ensures |Distinct(col + [x])| == |Distinct(col)| + if CountOf(col, x) == 0 then 1 else 0
    ensures |Returned(col + [x])| == |Returned(col)| + if CountOf(col, x) == 1 then 1 else 0
  {
    hide CountOf, Returned;
    CountPositive(col, x);
    assert Distinct(col + [x]) == Distinct(col) + {x};
    ReturnedStep(col, x);
  }

  lemma ReturnedStep(col: seq<string>, x: string)
    ensures |Returned(col + [x])| == |Returned(col)| + if CountOf(col, x) == 1 then 1 else 0
  {
    hide CountOf;
    forall key ensures CountOf(col + [x], key) == CountOf(col, key) + if x == key then 1 else 0 {
      CountAppend(col, x, key);
    }
    CountPositive(col, x);
    assert x in Returned(col) <==> CountOf(col, x) > 1;
    if CountOf(col, x) == 1 {
      assert Returned(col + [x]) == Returned(col) + {x};
    } else {
      assert Returned(col + [x]) == Returned(col);
    }
  }

  ghost predicate NobodyAbove(col: seq<string>, most: nat) {
    forall key :: CountOf(col, key) <= most
  }

  lemma AtMostTwice(col: seq<string>, x: string)
    ensures NobodyAbove(col + [x], 2) <==> CountOf(col, x) < 2 && NobodyAbove(col, 2)
  {
    if NobodyAbove(col + [x], 2) {
      forall key ensures CountOf(col, key) <= 2 {
        CountAppend(col, x, key);
      }
      CountAppend(col, x, x);
    }
    if CountOf(col, x) < 2 && NobodyAbove(col, 2) {
      forall key ensures CountOf(col + [x], key) <= 2 {
        CountAppend(col, x, key);
      }
    }
  }

  /** Returned voters and distinct voters together never exceed the votes, and use them all up exactly when
      nobody votes more than twice. */
  lemma {:induction false} ReturnedVotersBound(col: seq<string>)
    ensures |Returned(col)| <= |Distinct(col)| && |Returned(col)| + |Distinct(col)| <= |col|
    ensures |Returned(col)| + |Distinct(col)| == |col| <==> NobodyAbove(col, 2)
    decreases |col|
  {
    if col == [] {
    } else {
      hide CountOf, Distinct, Returned, NobodyAbove;
      var front, last := col[..|col| - 1], col[|col| - 1];
      assert col == front + [last];
      ReturnedVotersBound(front);
      VoterSteps(front, last);
      ReturnedInDistinct(col);
      AtMostTwice(front, last);
    }
  }

  lemma ReturnedInDistinct(col: seq<string>)
    ensures |Returned(col)| <= |Distinct(col)|
  {
    assert Distinct(col) == Returned(col) + (Distinct(col) - Returned(col));
  }

  /** The vote table as `dao_participation` reads it. */
  datatype Ballots = Ballots(rows: nat, proposal: Option<seq<string>>, vote: Option<seq<string>>,
                             voter: Option<seq<string>>, turnout: Option<seq<Option<real>>>)

  function Proposals(b: Ballots): nat {
    |Distinct(Values(b.proposal))|
  }

  lemma DistinctNonEmpty(col: seq<string>)
    ensures Distinct(col) == {} <==> col == []
  {
    if col != [] {
      assert col[0] in Distinct(col);
    }
  }

  /** `voter_retention` before rounding: the percentage of voters with more than one vote. */
  function Retention(b: Ballots): real
    requires Rectangular(b.rows, b.proposal) && Rectangular(b.rows, b.voter)
  {
    if b.rows > 0 && b.voter.Some? && Proposals(b) > 1 then
      DistinctNonEmpty(b.voter.value);
      |Returned(b.voter.value)| as real / |Distinct(b.voter.value)| as real * 100.0
    else 0.0
  }

  /** Retention is a percentage; with several proposals it is 100 exactly when every voter voted more than
      once; and it is bounded by the votes per voter. */
  lemma RetentionBounds(b: Ballots)
    requires Rectangular(b.rows, b.proposal) && Rectangular(b.rows, b.voter)
    ensures 0.0 <= Retention(b) <= 100.0
    ensures b.voter.Some? ==>
      Retention(b) * |Distinct(b.voter.value)| as real <= 100.0 * (b.rows - |Distinct(b.voter.value)|) as real
    ensures b.rows == 0 || b.voter.None? || |Distinct(Values(b.proposal))| <= 1 ==> Retention(b) == 0.0
    ensures b.rows > 0 && b.voter.Some? && |Distinct(Values(b.proposal))| > 1 ==>
      Retention(b) * |Distinct(b.voter.value)| as real == 100.0 * |Returned(b.voter.value)| as real
    ensures b.rows > 0 && b.voter.Some? && Proposals(b) > 1 ==>
      (Retention(b) == 100.0 <==> forall voter :: voter in b.voter.value ==> CountOf(b.voter.value, voter) > 1)
  {
    if b.voter.Some? {
      var col := b.voter.value;
      ReturnedVotersBound(col);
      DistinctNonEmpty(col);
      AllReturned(col);
      if b.rows > 0 {
        Percentage(|Returned(col)|, |Distinct(col)|);
      }
    }
  }

  lemma AllReturned(col: seq<string>)
    ensures |Returned(col)| == |Distinct(col)| <==> forall voter :: voter in col ==> CountOf(col, voter) > 1
  {
    hide CountOf;
    var rest := Distinct(col) - Returned(col);
    assert Distinct(col) == Returned(col) + rest;
    if |Returned(col)| == |Distinct(col)| {
      assert rest == {};
      forall voter | voter in col ensures CountOf(col, voter) > 1 {
        assert voter in Distinct(col);
      }
    }
  }

  lemma Percentage(part: nat, whole: nat)
    requires whole > 0 && part <= whole
    ensures var p := part as real / whole as real * 100.0;
      0.0 <= p <= 100.0 && p * whole as real == 100.0 * part as real && (p == 100.0 <==> part == whole)
  {
    var q := part as real / whole as real;
    assert q * whole as real == part as real;
    DivOrder(part as real, 1.0, whole as real);
  }

  // ----- Turnout and rounding -----

  /** The values that are not missing. */
  function Present(col: seq<Option<real>>): (r: seq<Option<real>>)
    ensures forall v :: v in r ==> v in col && v.Some?
    decreases |col|
  {
    if col == [] then []
    else Present(col[..|col| - 1]) + if col[|col| - 1].Some? then [col[|col| - 1]] else []
  }

  /** The average turnout in percent; None stands for the mean of no values, which is not a number. */
  function Turnout(b: Ballots): Option<real> {
    if b.rows == 0 || b.turnout.None? then Some(0.0)
    else
      var present := Present(b.turnout.value);
      if present == [] then None else Some(Confidence.Mean(present) * 100.0)
  }

  /** Sum of the values present. */
  function SumPresent(col: seq<Option<real>>): real
    decreases |col|
  {
    if col == [] then 0.0
    else
      var last := col[|col| - 1];
      SumPresent(col[..|col| - 1]) + if last.Some? then last.value else 0.0
  }

  function PresentAt(col: seq<Option<real>>): set<nat> {
    set i: nat | i < |col| && col[i].Some?
  }

  lemma {:induction false} PresentSize(col: seq<Option<real>>)
    ensures |Present(col)| == |PresentAt(col)|
    decreases |col|
  {
    if col == [] {
    } else {
      var front, last := col[..|col| - 1], col[|col| - 1];
      PresentSize(front);
      assert PresentAt(col) == PresentAt(front) + if last.Some? then {|front|} else {};
    }
  }

  lemma {:induction false} PresentTotal(col: seq<Option<real>>)
    ensures Confidence.Total(Present(col)) == SumPresent(col)
    decreases |col|
  {
    if col == [] {
    } else {
      var front, last := col[..|col| - 1], col[|col| - 1];
      PresentTotal(front);
      var kept, all := Present(front), Present(col);
      if last.Some? {
        assert all == kept + [last] && all[..|all| - 1] == kept;
        assert Confidence.Total(all) == Confidence.Total(kept) + Confidence.ScoreOf(last);
      } else {
        assert all == kept;
      }
    }
  }

  /** The average turnout: a hundred times the sum of the values present over their number, and no number at all when
      there is a turnout column without any value. */
  lemma TurnoutIsMean(b: Ballots)
    requires b.rows > 0 && b.turnout.Some?
    ensures Turnout(b) == None <==> PresentAt(b.turnout.value) == {}
    ensures Turnout(b).Some? ==>
      Turnout(b).value * |PresentAt(b.turnout.value)| as real == 100.0 * SumPresent(b.turnout.value)
  {
    TurnoutValue(b);
    PresentSize(b.turnout.value);
    hide Turnout, Present, SumPresent, Confidence.Mean;
    if Present(b.turnout.value) != [] {
      ValueOfPresent(b);
    }
  }

  lemma ValueOfPresent(b: Ballots)
    requires b.rows > 0 && b.turnout.Some? && Present(b.turnout.value) != []
    ensures Turnout(b).Some?
    ensures Turnout(b).value * |PresentAt(b.turnout.value)| as real == 100.0 * SumPresent(b.turnout.value)
  {
    TurnoutValue(b);
    var col := b.turnout.value;
    hide Turnout, Present, PresentAt, SumPresent, Confidence.Mean;
    MeanOfPresent(col);
    TimesHundred(Confidence.Mean(Present(col)), |PresentAt(col)| as real, SumPresent(col), Turnout(b).value);
  }

  lemma TurnoutValue(b: Ballots)
    requires b.rows > 0 && b.turnout.Some?
    ensures var present := Present(b.turnout.value);
      Turnout(b) == if present == [] then None else Some(Confidence.Mean(present) * 100.0)
  {
  }

  lemma MeanOfPresent(col: seq<Option<real>>)
    requires Present(col) != []
    ensures Confidence.Mean(Present(col)) * |PresentAt(col)| as real == SumPresent(col)
  {
    hide PresentAt, SumPresent, Present, Confidence.Mean;
    PresentSize(col);
    PresentTotal(col);
    Confidence.MeanIs(Present(col));
  }

  lemma TimesHundred(m: real, n: real, total: real, v: real)
    requires m * n == total && v == m * 100.0
    ensures v * n == 100.0 * total
  {
  }

  /** The nearest whole number, the even one of two equally near. */
  function Nearest(y: real): int {
    var rest := y - y.Floor as real;
    if rest < 0.5 || (rest == 0.5 && y.Floor % 2 == 0) then y.Floor else y.Floor + 1
  }

  function RoundTenth(x: real): real {
    Nearest(10.0 * x) as real / 10.0
  }

  /** What rounding does: the whole number less than a half away, or of two exactly a half away the even one. */
  lemma NearestIs(y: real, n: int)
    ensures Nearest(y) == n <==>
      || n as real - 0.5 < y < n as real + 0.5
      || (n % 2 == 0 && (y == n as real - 0.5 || y == n as real + 0.5))
  {
    if y >= n as real {
      assert y < n as real + 1.0 ==> y.Floor == n;
    } else {
      assert y >= n as real - 1.0 ==> y.Floor == n - 1;
    }
  }

  /** 6.25 is reported as 6.2, 6.35 as 6.4. */
  lemma TiesToEven()
    ensures RoundTenth(6.25) == 6.2 && RoundTenth(6.35) == 6.4
  {
    NearestIs(62.5, 62);
    NearestIs(63.5, 64);
  }

  lemma NearestMonotone(x: real, y: real)
    requires x <= y
    ensures Nearest(x) <= Nearest(y)
  {
    if x.Floor < y.Floor {
      assert x.Floor + 1 <= y.Floor;
    }
  }

  /** Rounding moves a figure by at most 0.05, keeps order, and leaves whole numbers alone. */
  lemma RoundTenthKeeps(x: real, y: real, n: int)
    requires x <= y
    ensures x - 0.05 <= RoundTenth(x) <= x + 0.05
    ensures RoundTenth(x) <= RoundTenth(y)
    ensures RoundTenth(n as real) == n as real
  {
    NearestMonotone(10.0 * x, 10.0 * y);
    assert (10.0 * n as real).Floor == 10 * n;
  }

  /** The reported retention is a percentage too; it reads 100 exactly from 99.95 on, so not only when every
      voter returned. */
  lemma ReportedRetention(b: Ballots)
    requires Rectangular(b.rows, b.proposal) && Rectangular(b.rows, b.voter)
    ensures 0.0 <= RoundTenth(Retention(b)) <= 100.0
    ensures RoundTenth(Retention(b)) == 100.0 <==> Retention(b) >= 99.95
  {
    hide Retention;
    RetentionBounds(b);
    var r := Retention(b);
    RoundTenthKeeps(0.0, r, 0);
    RoundTenthKeeps(r, 100.0, 100);
    HundredFrom(r);
  }

  lemma HundredFrom(r: real)
    requires r <= 100.0
    ensures RoundTenth(r) == 100.0 <==> r >= 99.95
  {
    if r >= 99.95 {
      NearestMonotone(999.5, 10.0 * r);
      NearestMonotone(10.0 * r, 1000.0);
      assert (999.5).Floor == 999 && (1000.0).Floor == 1000;
    } else if 10.0 * r >= 999.0 {
      assert (10.0 * r).Floor == 999;
    } else {
      NearestMonotone(10.0 * r, 999.0);
      assert (999.0).Floor == 999;
    }
  }

  /** Turnouts between 0 and 1 give an average between 0 and 100, rounded or not. */
  lemma TurnoutBounds(b: Ballots)
    requires b.turnout.Some? ==> forall i :: 0 <= i < |b.turnout.value| && b.turnout.value[i].Some? ==>
      0.0 <= b.turnout.value[i].value <= 1.0
    ensures Turnout(b).Some? ==> 0.0 <= Turnout(b).value <= 100.0 && 0.0 <= RoundTenth(Turnout(b).value) <= 100.0
  {
    if b.rows > 0 && b.turnout.Some? && Present(b.turnout.value) != [] {
      Confidence.MeanWithin(Present(b.turnout.value), 0.0, 1.0);
    }
    hide Present, Confidence.Mean;
    if Turnout(b).Some? {
      RoundTenthKeeps(0.0, Turnout(b).value, 0);
      RoundTenthKeeps(Turnout(b).value, 100.0, 100);
    }
  }

  /** `dao_participation`. */
  method DaoParticipation(b: Ballots)
    returns (proposals: nat, total: nat, distribution: map<string, nat>, turnout: Option<real>, retention: real)
    requires Rectangular(b.rows, b.proposal) && Rectangular(b.rows, b.vote) && Rectangular(b.rows, b.voter)
    requires b.turnout.Some? ==> |b.turnout.value| == b.rows
    ensures proposals == |Distinct(Values(b.proposal))| && total == b.rows
    ensures distribution == Distribution(Values(b.vote))
    ensures turnout == (if Turnout(b).Some? then Some(RoundTenth(Turnout(b).value)) else None)
    ensures retention == RoundTenth(Retention(b))
  {
    hide Distribution, CountOf, RoundTenth, Present;
    EmptyDistribution();
    RoundTenthKeeps(0.0, 0.0, 0);
    total, proposals, distribution := b.rows, 0, map["for" := 0, "against" := 0, "abstain" := 0];
    turnout, retention := Some(0.0), 0.0;
    if total == 0 {
      assert Values(b.proposal) == [] && Values(b.vote) == [];
      return;
    }
    if b.proposal.Some? {
      proposals := |Unique(b.proposal.value)|;
      UniqueSize(b.proposal.value);
    }
    if b.vote.Some? {
      distribution := VoteDistribution(b.vote.value);
    }
    if b.turnout.Some? {
      var present := Present(b.turnout.value);
      turnout := if present == [] then None else Some(RoundTenth(Confidence.Mean(present) * 100.0));
    }
    if b.voter.Some? && proposals > 1 {
      var counts := CountByRow(b.voter.value);
      var returned := set voter | voter in counts && counts[voter] > 1;
      assert returned == Returned(b.voter.value) && counts.Keys == Distinct(b.voter.value);
      DistinctNonEmpty(b.voter.value);
      retention := RoundTenth(|returned| as real / |counts| as real * 100.0);
    }
  }

  lemma {:induction false} UniqueSize(col: seq<string>)
    ensures |Unique(col)| == |Distinct(col)|
    decreases |col|
  {
    if col == [] {
    } else {
      var front, last := col[..|col| - 1], col[|col| - 1];
      assert col == front + [last];
      UniqueSize(front);
      UniqueCovers(front, last);
      assert Distinct(col) == Distinct(front) + {last};
    }
  }

  // ----- Fed with the vote ledger of the DAO service -----

  function Word(choice: DaoState.Choice): string {
    match choice
    case Yes => "yes"
    case No => "no"
    case Abstain => "abstain"
  }

  /** The words are those the ledger reads. */
  lemma WordsAreParsed(vote: string, choice: DaoState.Choice)
    ensures DaoService.ParseVote(vote) == Some(choice) <==> vote == Word(choice)
  {
    assert "yes"[0] != "no"[0] && "yes"[0] != "abstain"[0] && "no"[0] != "abstain"[0];
  }

  function VoteColumn(votes: seq<DaoState.VoteRow>): seq<string> {
    seq(|votes|, i requires 0 <= i < |votes| => Word(votes[i].choice))
  }

  function UserColumn(votes: seq<DaoState.VoteRow>): seq<string> {
    seq(|votes|, i requires 0 <= i < |votes| => votes[i].user)
  }

  function ProposalColumn(votes: seq<DaoState.VoteRow>): seq<string> {
    seq(|votes|, i requires 0 <= i < |votes| => votes[i].proposal)
  }

  /** The two services speak different words: on a ledger the distribution shows no vote for or against,
      and accounts for every vote exactly when all of them abstain. */
  lemma LedgerVotesUncounted(votes: seq<DaoState.VoteRow>)
    ensures var col := VoteColumn(votes);
      && CountOf(col, "for") == 0 && CountOf(col, "against") == 0
      && (CountOf(col, "abstain") == |votes| <==> forall i :: 0 <= i < |votes| ==> votes[i].choice.Abstain?)
  {
    hide CountOf;
    var col := VoteColumn(votes);
    CountPositive(col, "for");
    CountPositive(col, "against");
    DistributionCovers(col);
    assert Word(DaoState.Abstain) == KINDS[2];
    forall i | 0 <= i < |votes| ensures col[i] in KINDS <==> votes[i].choice.Abstain? {
      assert "yes"[0] != "for"[0] && "yes"[0] != "against"[0] && "yes"[0] != "abstain"[0];
      assert "no"[0] != "for"[0] && "no"[0] != "against"[0] && "no"[0] != "abstain"[0];
    }
    forall key | key in col && forall i :: 0 <= i < |votes| ==> votes[i].choice.Abstain? ensures key in KINDS {
      var i :| 0 <= i < |col| && col[i] == key;
    }
  }

  lemma {:induction false} TwoPositions(col: seq<string>, key: string) returns (i: nat, j: nat)
    requires CountOf(col, key) > 1
    ensures i < j < |col| && col[i] == key && col[j] == key
    decreases |col|
  {
    var front, last := col[..|col| - 1], col[|col| - 1];
    if last == key {
      CountPositive(front, key);
      i :| 0 <= i < |front| && front[i] == key;
      j := |front|;
    } else {
      i, j := TwoPositions(front, key);
    }
  }

  lemma {:induction false} AbsentEverywhere(votes: seq<DaoState.VoteRow>, proposal: string, user: string, j: nat)
    requires DaoState.RowChoice(votes, proposal, user) == None && j < |votes|
    ensures !DaoState.SameKey(votes[j], proposal, user)
  {
    if j > 0 {
      AbsentEverywhere(votes[1..], proposal, user, j - 1);
    }
  }

  lemma {:induction false} KeysDiffer(votes: seq<DaoState.VoteRow>, i: nat, j: nat)
    requires DaoProperties.Unique(votes) && i < j < |votes|
    ensures !DaoState.SameKey(votes[j], votes[i].proposal, votes[i].user)
  {
    if i == 0 {
      AbsentEverywhere(votes[1..], votes[0].proposal, votes[0].user, j - 1);
    } else {
      KeysDiffer(votes[1..], i - 1, j - 1);
    }
  }

  lemma OneProposal(col: seq<string>, i: nat, j: nat)
    requires |Distinct(col)| <= 1 && i < |col| && j < |col|
    ensures col[i] == col[j]
  {
    assert col[i] in Distinct(col) && col[j] in Distinct(col);
    assert |Distinct(col) - {col[i]}| == 0;
    assert col[j] !in Distinct(col) - {col[i]};
  }

  /** On the table of every ledger run, fewer than two proposals mean that nobody voted twice: the guard on the
      number of proposals never hides a returned voter. */
  lemma GuardRedundantOnLedger(now: int, steps: seq<DaoState.Step>)
    ensures var votes := DaoState.Exec(DaoState.Init(now), steps).votes;
      |Distinct(ProposalColumn(votes))| <= 1 ==> Returned(UserColumn(votes)) == {}
  {
    DaoProperties.InitInv(now);
    DaoProperties.RunInv(DaoState.Init(now), steps);
    var votes := DaoState.Exec(DaoState.Init(now), steps).votes;
    hide DaoState.Exec, CountOf, Distinct;
    if |Distinct(ProposalColumn(votes))| <= 1 {
      forall u | u in UserColumn(votes) ensures CountOf(UserColumn(votes), u) <= 1 {
        if CountOf(UserColumn(votes), u) > 1 {
          var i, j := TwoPositions(UserColumn(votes), u);
          KeysDiffer(votes, i, j);
          OneProposal(ProposalColumn(votes), i, j);
        }
      }
    }
  }
}
