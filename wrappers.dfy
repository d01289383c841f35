/** Optional values and results, as used by the rest of the model. */
module Wrappers {

  /** A value that may be absent: a SQL NULL or a pandas NaN. */
  datatype Option<+T> = None | Some(value: T)

  /** The value of an operation that may raise an error. */
  datatype Result<+R, +E> = Success(value: R) | Failure(error: E)
}
