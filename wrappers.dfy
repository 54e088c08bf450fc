/** Failure-carrying results used across the model: Go's `(value, error)` pairs
    and `log.Fatal` exits become values of these types. */
module Wrappers {

  datatype Option<+T> = None | Some(value: T)

  datatype Result<+T, +E> = Success(value: T) | Failure(error: E)
}
