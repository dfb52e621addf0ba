/** Failure-compatible wrappers used throughout the model. */
module Wrappers {

  /** A value that may be absent (PHP `null`). */
  datatype Option<+T> = None | Some(value: T)

  /** The outcome of a call that may throw: the value, or the exception's message. */
  datatype Result<+R, +E> = Success(value: R) | Failure(error: E)
}
