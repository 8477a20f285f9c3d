/** Explicit success/failure values standing in for the exceptions the
    command history raises. */
module Outcomes {

  /** A value that may be absent. */
  datatype Option<+T> = None | Some(value: T)

  /** Either a value or an error; the error type names what went wrong. */
  datatype Result<+T, +E> = Ok(value: T) | Err(error: E)
}
