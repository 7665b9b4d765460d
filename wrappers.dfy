/** Option and Result, for the nullable pointers and the error returns of the service. */
module Wrappers {

  /** A value that may be absent: Go's nil pointer. */
  datatype Option<+T> = None | Some(value: T)

  /** A value or the error that replaced it: Go's `(value, error)` pair. */
  datatype Result<+R, +E> = Success(value: R) | Failure(error: E)
}
