/** Failure-carrying results shared by the whole project. */
module Outcomes {

  datatype Option<+T> = None | Some(value: T)

  /**
   * What a call into the chain state can do: return normally with a value, report an
   * error to its caller, or run into a failing `assert`, which stops the node.
   */
  datatype Outcome<+T> = Done(value: T) | Rejected | AssertFailed {

    predicate IsFailure() {
      !Done?
    }

    function PropagateFailure<U>(): Outcome<U>
      requires IsFailure()
    {
      if Rejected? then Rejected else AssertFailed
    }

    function Extract(): T
      requires Done?
    {
      value
    }
  }

  /** Some element of a nonempty set. */
  ghost function Pick<T>(s: set<T>): (x: T)
    requires s != {}
    ensures x in s
  {
    var x :| x in s;
    x
  }
}
