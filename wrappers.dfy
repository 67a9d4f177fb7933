/** Absent-or-present values and results that carry either a value or an error. */
module Wrappers {

  /** A value that may be absent (Java's null for a String field). */
  datatype Option<+T> = None | Some(value: T)

  /** The outcome of an operation that can fail (Java's thrown exception). */
  datatype Result<+T, +E> = Success(value: T) | Failure(error: E) {
    predicate IsFailure() { Failure? }

    function PropagateFailure<U>(): Result<U, E>
      requires Failure?
    {
      Failure(error)
    }

    function Extract(): T
      requires Success?
    {
      value
    }
  }
}
