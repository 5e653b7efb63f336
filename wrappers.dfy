/** Optional values and error-carrying results, used where the Go code
    passes a nil-able pointer or an (value, error) pair. */
module Wrappers {

  /** A value that may be absent: Go's `*T` that may be nil. */
  datatype Option<+T> = None | Some(value: T)

  /** A value or an error: Go's `(T, error)` return pair. */
  datatype Result<+T, +E> = Ok(value: T) | Err(error: E)
}
