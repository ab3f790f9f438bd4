/** Optional values and success/failure results, as used throughout the move model. */
module Wrappers {

  /** A value that may be absent: PHP's `null` for a nullable column or lookup. */
  datatype Option<+T> = None | Some(value: T)

  /** The outcome of a controller action: a payload on success, an error kind otherwise. */
  datatype Result<+R, +E> = Success(value: R) | Failure(error: E)
}
