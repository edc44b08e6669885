/** Failure-compatible Option and Result types used by the whole model. */
module Wrappers {

  datatype Option<+T> = None | Some(value: T)

  /** A computation that either succeeds with a value or fails with an error,
      the model's counterpart of a Python exception that aborts the run. */
  datatype Result<+T, +E> = Success(value: T) | Failure(error: E) {

    predicate IsFailure()
    {
      Failure?
    }

    function PropagateFailure<U>(): Result<U, E>
      requires Failure?
    {
      Failure(error)
    }

    function Extract(): T
      requires Success?
    {
      value
    }
  }
}
