/** Optional values and results used throughout the model. */
module Wrappers {

  datatype Option<+T> = None | Some(value: T)

  /** A computation that either produced a value or raised the error `error`. */
  datatype Result<+T, +E> = Success(value: T) | Failure(error: E)
}
