/** Failure-carrying datatypes shared by the task store and the automation handlers. */
module Wrappers {

  /** A value that may be absent: a missing dictionary key, a file that does not exist. */
  datatype Option<+T> = None | Some(value: T)

  /** The outcome of an operation that either produces a value or fails with an error. */
  datatype Result<+T, +E> = Success(value: T) | Failure(error: E)
}
