/** Failure-carrying datatypes shared by the login endpoint and the admin guard. */
module Wrappers {

  /** A value that may be absent: a missing field, a missing or unreadable store. */
  datatype Option<+T> = None | Some(value: T)

  /** The outcome of an operation that either produces a value or fails with an error. */
  datatype Result<+R, +E> = Success(value: R) | Failure(error: E)
}
