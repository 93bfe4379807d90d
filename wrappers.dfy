/** Failure-compatible wrappers used for the exceptions of the decoder and encoder. */
module Wrappers {

  datatype Option<+T> = None | Some(value: T)

  /** A value, or the error that the corresponding Python code raises. */
  datatype Result<+T, +E> = Success(value: T) | Failure(error: E) {
    predicate IsFailure() { Failure? }

    function PropagateFailure<U>(): Result<U, E>
      requires Failure?
    {
      Failure(error)
    }

    function Extract(): T
      requires Success?
    {
      value
    }
  }

  /** The outcome of a Python method that returns None or raises. */
  datatype Outcome<+E> = Pass | Fail(error: E)
}
