/** Optional values and results with an error, shared by every module of the model. */
module Wrappers {

  /** A value that may be absent: SQL NULL, a JavaScript `null` or `undefined`. */
  datatype Option<+T> = None | Some(value: T)

  /** The outcome of an operation that may throw. */
  datatype Result<+R, +E> = Success(value: R) | Failure(error: E)
}
