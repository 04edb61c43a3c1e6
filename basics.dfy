/** Optional values and success-or-failure results shared by every module of the model. */
module Basics {

  /** A value that may be absent: an unset field, a missing query parameter, `NaN`. */
  datatype Option<+T> = None | Some(value: T)

  /** The outcome of an operation that either yields a value or fails with an error. */
  datatype Result<+T, +E> = Success(value: T) | Failure(error: E)
}
