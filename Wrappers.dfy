/** Optional values and failure-carrying results. */
module Wrappers {

  /** An absent (Java null / empty Optional) or present value. */
  datatype Option<+T> = None | Some(value: T)

  /** The outcome of a computation that may throw. */
  datatype Result<+T, +E> = Success(value: T) | Failure(error: E)
}
