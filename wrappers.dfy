/** Failure-carrying values: the Go code's `(value, error)` pairs become these. */
module Wrappers {

  datatype Option<+T> = None | Some(value: T)

  datatype Result<+R, +E> = Success(value: R) | Failure(error: E)
}
