/** Failure-compatible wrappers used across the loader model. */
module Wrappers {

  /** An optional value; `None` stands for Python's `None` or an absent result. */
  datatype Option<+T> = None | Some(value: T)

  /** The outcome of an operation that may raise; `Failure` carries the exception. */
  datatype Result<+R, +E> = Success(value: R) | Failure(error: E) {

    predicate IsFailure() {
      Failure?
    }

    function PropagateFailure<U>(): Result<U, E>
      requires Failure?
    {
      Failure(error)
    }

    function Extract(): R
      requires Success?
    {
      value
    }
  }
}
