/** Failure-compatible wrappers: a Python value that may be `None`, and a
    computation that either produces a value or raises. */
module Wrappers {

  datatype Option<+T> = None | Some(value: T)

  datatype Result<+T, +E> = Success(value: T) | Failure(error: E)
}
