/** Failure-compatible wrappers used to model the exceptions the inliner can raise. */
module Wrappers {

  datatype Option<+T> = None | Some(value: T)

  /** A computation that either succeeds with a value or fails with an error (a Java exception). */
  datatype Result<+R, +E> = Ok(value: R) | Err(error: E) {
    predicate IsFailure() {
      Err?
    }

    function PropagateFailure<U>(): Result<U, E>
      requires Err?
    {
      Err(error)
    }

    function Extract(): R
      requires Ok?
    {
      value
    }
  }

  /** The outcome of a state-changing operation: it completed, or it raised an error. */
  datatype Outcome<+E> = Pass | Fail(error: E)
}
