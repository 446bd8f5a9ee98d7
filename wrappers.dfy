/** Failure-compatible wrappers shared by the whole model. */
module Wrappers {

  /** A value that may be absent: Go's nil or "no match". */
  datatype Option<+T> = None | Some(value: T)

  /** A value or an error: Go's `(value, error)` pair. */
  datatype Result<+T, +E> = Ok(value: T) | Err(error: E)
}
