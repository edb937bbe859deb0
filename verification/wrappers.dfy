/** Failure-carrying result types used by the parser: Python's `ValueError`
    becomes a `Failure` value instead of an exception. */
module Wrappers {

  datatype Option<+T> = None | Some(value: T)

  datatype Result<+R, +E> = Success(value: R) | Failure(error: E)
}
