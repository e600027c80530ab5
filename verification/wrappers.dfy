/** Failure-carrying return types used across the model. */
module Wrappers {

  /** A value that may be absent: the `None` a query's `.first()` yields. */
  datatype Option<+T> = None | Some(value: T)

  /** A value or the error an operation raised instead of returning. */
  datatype Result<+T, +E> = Success(value: T) | Failure(error: E)
}
