/** Optional values and results with an error, shared by every module of the model. */
module Outcomes {

  /** A value that may be absent (Python's `None`). */
  datatype Option<+T> = None | Some(value: T)

  /** The value of an operation, or the exception the source raises instead. */
  datatype Result<+T, +E> = Success(value: T) | Failure(error: E)
}
