/** Failure-compatible result types used throughout the model: `Option` for
    values that may be absent, `Result` for computations that raise an
    exception in the Java code, and `Outcome` for checks that either pass or
    raise. `Result` supports Dafny's `:-` operator. */
module Wrappers {

  datatype Option<+T> = None | Some(value: T)

  datatype Result<+R, +E> = Success(value: R) | Failure(error: E) {

    predicate IsFailure() {
      Failure?
    }

    function PropagateFailure<U>(): Result<U, E>
      requires Failure?
    {
      Failure(error)
    }

    function Extract(): R
      requires Success?
    {
      value
    }
  }

  datatype Outcome<+E> = Pass | Fail(error: E)
}
