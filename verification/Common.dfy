/** Types shared by the service models. */
module Common {

  datatype Option<+T> = None | Some(value: T)

  /** How a database statement ends. A failure reported to the caller may still have been applied
      (for example when the connection is lost after the commit). */
  datatype Outcome = Done | Failed(applied: bool)

  predicate Applied(o: Outcome) {
    o.Done? || o.applied
  }

  lemma {:induction false} SubsetSize(a: set<string>, b: set<string>)
    requires a <= b
    ensures |a| <= |b|
    decreases a
  {
    if a == {} {
    } else {
      var x :| x in a;
      SubsetSize(a - {x}, b - {x});
    }
  }
}
