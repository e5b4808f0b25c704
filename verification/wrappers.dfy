/** Optional values and results with an error, in place of Go's nil pointers and `(value, error)` pairs. */
module Wrappers {

  /** A value that may be absent: a Go pointer field that may be nil, or an `error` that may be nil. */
  datatype Option<+T> = None | Some(value: T)

  /** A Go `(value, error)` return: either the value or the error. */
  datatype Result<+T, +E> = Ok(value: T) | Err(error: E)
}
