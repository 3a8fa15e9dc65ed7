/** Shared result types. */
module Wrappers {
  datatype Option<+T> = None | Some(value: T)

  /** A value, or the error that stands in its place. */
  datatype Result<+T, +E> = Success(value: T) | Failure(error: E)
}
