/** Failure-carrying values shared by every module of the model. */
module Wrappers {

  /** A value that may be missing; a Go `error` that may be nil is an `Option<Error>`. */
  datatype Option<+T> = None | Some(value: T)

  /** The two-result convention of Go, `(value, nil)` or `(zero, err)`. */
  datatype Result<+T, +E> = Ok(value: T) | Err(error: E)
}
