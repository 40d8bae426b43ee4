/** Option and Result, the two shapes every outcome in this model takes. */
module Wrappers {

  /** A value that may be missing: Go's nil pointer or absent map entry. */
  datatype Option<+T> = None | Some(value: T)

  /** A value or the error that stopped it from being computed. */
  datatype Result<+R, +E> = Success(value: R) | Failure(error: E)
}
