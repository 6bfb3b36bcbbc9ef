/** Failure-carrying datatypes shared by the whole model. */
module Wrappers {

  datatype Option<+T> = None | Some(value: T)

  /** The outcome of a step that either produces a value or fails with an error. */
  datatype Result<+R, +E> = Success(value: R) | Failure(error: E)

  /** A Go-style `(value, error)` pair: `err` is `None` exactly when the call
      succeeded, and a failing call still hands back a `value` (by convention
      the zero value of its type). */
  datatype Ret<+T, +E> = Ret(value: T, err: Option<E>) {
    predicate Ok() { err.None? }
  }
}
