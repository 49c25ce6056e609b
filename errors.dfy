/** Go's error returns: a value and an error, of which the caller reads the
    value only when the error is nil. */
module Errors {
  /** A (value, error) pair: the value with a nil error, or the error's
      message. */
  datatype Result<T> = Ok(value: T) | Err(msg: string)

  /** A value that may be absent. */
  datatype Option<T> = None | Some(value: T)
}
