/** Failure-carrying values used in place of Go's `(value, error)` returns,
    nil pointers and panics. */
module Wrappers {

  datatype Option<+T> = None | Some(value: T)

  datatype Result<+T, +E> = Success(value: T) | Failure(error: E)
}
