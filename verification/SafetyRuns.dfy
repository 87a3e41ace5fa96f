/** Concrete runs of the check-in protocol in which one writer overwrites what another reported. */
module SafetyRuns {
  import opened Common
  import opened SafetyState

  lemma ExecFrom(s: State, steps: seq<Step>, i: nat)
    requires i < |steps|
    ensures Exec(s, steps[i..]) == Exec(Apply(s, steps[i]), steps[i + 1..])
  {
    hide Apply;
    assert steps[i..] == [steps[i]] + steps[i + 1..];
    ExecConcat(s, [steps[i]], steps[i + 1..]);
    ExecStep(s, [], steps[i]);
    assert [] + [steps[i]] == [steps[i]];
  }

  lemma Three(s: State, steps: seq<Step>, i: nat)
    requires i + 3 <= |steps|
    ensures Exec(s, steps[i..]) == Exec(Apply(Apply(Apply(s, steps[i]), steps[i + 1]), steps[i + 2]), steps[i + 3..])
  {
    hide Apply;
    ExecFrom(s, steps, i);
    ExecFrom(Apply(s, steps[i]), steps, i + 1);
    ExecFrom(Apply(Apply(s, steps[i]), steps[i + 1]), steps, i + 2);
  }

  /** A run of nine steps in three parts. */
  lemma Nine(s: State, steps: seq<Step>, t: State, u: State, v: State)
    requires |steps| == 9
    requires t == Apply(Apply(Apply(s, steps[0]), steps[1]), steps[2])
    requires u == Apply(Apply(Apply(t, steps[3]), steps[4]), steps[5])
    requires v == Apply(Apply(Apply(u, steps[6]), steps[7]), steps[8])
    ensures Exec(s, steps) == v
  {
    hide Apply;
    assert steps[0..] == steps && steps[9..] == [];
    Three(s, steps, 0);
    Three(t, steps, 3);
    Three(u, steps, 6);
  }

  const ROW := Row("c", "u")

  /** One completion request under way. */
  const SLOW := map[0 := Request("c", "u")]

  function Booked(now: Time, completing: map<nat, Request>, monitor: Monitor): State {
    State(now, Row10(Pending, None), map[], completing, map[], monitor, [])
  }

  lemma Fetches(completing: map<nat, Request>)
    ensures Apply(Booked(11, completing, Idle), SweepSelect([ROW])) == Booked(11, completing, Sweeping([ROW]))
  {
    assert Selectable(Booked(11, completing, Idle), [ROW]);
  }

  function Row10(status: CheckInStatus, stamp: Option<Time>): map<string, CheckIn> {
    map["c" := CheckIn("u", 10, status, stamp)]
  }

  const ALERTED := map["a" := Alert("u", Safety, Active, None, None)]

  function Closed(status: CheckInStatus, stamp: Time, log: seq<Event>): State {
    State(11, Row10(status, Some(stamp)), ALERTED, map[], map[], Idle, log)
  }

  /** A fetched row whose completion has just been written. */
  function Overtaken(stamp: Time): State {
    State(11, Row10(Completed, Some(stamp)), map[], map[], map[], Sweeping([ROW]),
          [CompletionTried("c", "u", 11, stamp, Done)])
  }

  /** The rest of the sweep: mark, alert, end. */
  lemma SweepCloses(stamp: Time)
    ensures Apply(Apply(Apply(Overtaken(stamp), SweepMark(Done)), SweepAlert("a", Done)), SweepEnd)
         == Closed(Missed, stamp,
              [CompletionTried("c", "u", 11, stamp, Done), MarkTried("c", 11, Done), AlertTried("c", "a", Done)])
  {
  }

  // ----- Completed, then missed -----

  const LATE_COMPLETION: seq<Step> := [
    Schedule("c", "u", 10, 0, Done), Tick(5), Tick(11),
    SweepSelect([ROW]), CompleteRead(0, "c", "u"), CompleteWrite(0, 11, Done),
    SweepMark(Done), SweepAlert("a", Done), SweepEnd]

  lemma CompletesFetched()
    ensures Apply(Apply(Apply(Booked(11, map[], Idle), SweepSelect([ROW])), CompleteRead(0, "c", "u")),
                  CompleteWrite(0, 11, Done)) == Overtaken(11)
  {
    Fetches(map[]);
  }

  /** A completion is reported to its user, then the sweep marks the check-in missed and raises an alert. */
  lemma CompletedThenMissed()
    ensures Exec(Init(0), LATE_COMPLETION)
         == Closed(Missed, 11,
              [CompletionTried("c", "u", 11, 11, Done), MarkTried("c", 11, Done), AlertTried("c", "a", Done)])
  {
    var t := Booked(11, map[], Idle);
    assert t == Apply(Apply(Apply(Init(0), LATE_COMPLETION[0]), LATE_COMPLETION[1]), LATE_COMPLETION[2]);
    hide Apply, Exec;
    CompletesFetched();
    SweepCloses(11);
    Nine(Init(0), LATE_COMPLETION, t, Overtaken(11),
      Closed(Missed, 11,
        [CompletionTried("c", "u", 11, 11, Done), MarkTried("c", 11, Done), AlertTried("c", "a", Done)]));
  }

  const SLOW_WRITE: seq<Step> := [
    Schedule("c", "u", 10, 0, Done), CompleteRead(0, "c", "u"), Tick(9),
    Tick(11), SweepSelect([ROW]), CompleteWrite(0, 9, Done),
    SweepMark(Done), SweepAlert("a", Done), SweepEnd]

  lemma WritesAfterFetch()
    ensures Apply(Apply(Apply(Booked(9, SLOW, Idle), Tick(11)), SweepSelect([ROW])), CompleteWrite(0, 9, Done))
         == Overtaken(9)
  {
    Fetches(SLOW);
  }

  /** A recorded completion time within the schedule is no protection: read at 0 and stamped at 9, the write lands
      at 11 after the sweep fetched the row, and the check-in due at 10 ends as missed. */
  lemma StampedOnTimeThenMissed()
    ensures Exec(Init(0), SLOW_WRITE)
         == Closed(Missed, 9,
              [CompletionTried("c", "u", 11, 9, Done), MarkTried("c", 11, Done), AlertTried("c", "a", Done)])
  {
    var t := Booked(9, SLOW, Idle);
    assert t == Apply(Apply(Apply(Init(0), SLOW_WRITE[0]), SLOW_WRITE[1]), SLOW_WRITE[2]);
    hide Apply, Exec;
    WritesAfterFetch();
    SweepCloses(9);
    Nine(Init(0), SLOW_WRITE, t, Overtaken(9),
      Closed(Missed, 9,
        [CompletionTried("c", "u", 11, 9, Done), MarkTried("c", 11, Done), AlertTried("c", "a", Done)]));
  }

  // ----- Missed, then completed -----

  const SLOW_REQUEST: seq<Step> := [
    Schedule("c", "u", 10, 0, Done), CompleteRead(0, "c", "u"), Tick(5),
    Tick(11), SweepSelect([ROW]), SweepMark(Done),
    SweepAlert("a", Done), SweepEnd, CompleteWrite(0, 11, Done)]

  /** A marked row whose alert is still to come, with a request under way. */
  const MARKED := State(11, Row10(Missed, None), map[], SLOW, map[], Alerting(ROW, []),
                        [MarkTried("c", 11, Done)])

  lemma MarksFetched()
    ensures Apply(Apply(Apply(Booked(5, SLOW, Idle), Tick(11)), SweepSelect([ROW])), SweepMark(Done)) == MARKED
  {
    Fetches(SLOW);
    assert [ROW][1..] == [];
  }

  lemma CompletesMarked()
    ensures Apply(Apply(Apply(MARKED, SweepAlert("a", Done)), SweepEnd), CompleteWrite(0, 11, Done))
         == Closed(Completed, 11,
              [MarkTried("c", 11, Done), AlertTried("c", "a", Done), CompletionTried("c", "u", 11, 11, Done)])
  {
  }

  /** The other way round: a check-in marked missed and alerted ends as completed, its alert still active. */
  lemma MissedThenCompleted()
    ensures Exec(Init(0), SLOW_REQUEST)
         == Closed(Completed, 11,
              [MarkTried("c", 11, Done), AlertTried("c", "a", Done), CompletionTried("c", "u", 11, 11, Done)])
  {
    var t := Booked(5, SLOW, Idle);
    assert t == Apply(Apply(Apply(Init(0), SLOW_REQUEST[0]), SLOW_REQUEST[1]), SLOW_REQUEST[2]);
    hide Apply, Exec;
    MarksFetched();
    CompletesMarked();
    Nine(Init(0), SLOW_REQUEST, t, MARKED,
      Closed(Completed, 11,
        [MarkTried("c", 11, Done), AlertTried("c", "a", Done), CompletionTried("c", "u", 11, 11, Done)]));
  }
}
