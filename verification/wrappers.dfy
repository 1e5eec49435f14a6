/** Failure-compatible wrappers used in place of Python's `None` and exceptions. */
module Wrappers {

  /** A value that may be absent, like the result of `dict.get`. */
  datatype Option<+T> = None | Some(value: T)

  /** The outcome of a step that may raise: its value, or the error it raised. */
  datatype Result<+T, +E> = Success(value: T) | Failure(error: E) {

    predicate IsFailure() {
      Failure?
    }

    function PropagateFailure<U>(): Result<U, E>
      requires Failure?
    {
      Failure(error)
    }

    function Extract(): T
      requires Success?
    {
      value
    }
  }
}
