/** Optional values and failure-carrying results used by the timer registrar model. */
module Wrappers {

  /** A value that may be absent: JavaScript's `undefined` for an optional property. */
  datatype Option<+T> = None | Some(value: T)

  /** The outcome of evaluating an expression that may throw. */
  datatype Result<+R, +E> = Success(value: R) | Failure(error: E)
}
