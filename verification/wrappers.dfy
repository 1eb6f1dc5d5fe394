/** Optional values and success-or-failure results used throughout the model. */
module Wrappers {

  /** A value that may be absent: a nullable column or a query that found nothing. */
  datatype Option<+T> = None | Some(value: T)

  /** The outcome of a store operation that either yields a value or fails. */
  datatype Result<+R, +E> = Success(value: R) | Failure(error: E)

  /** The outcome of a store operation that yields nothing but may fail. */
  datatype Outcome<+E> = Pass | Fail(error: E)
}
