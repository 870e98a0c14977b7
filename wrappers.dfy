/** Option and Result, the model's stand-ins for Go's `(value, ok)` and `(value, error)` returns. */
module Wrappers {

  datatype Option<+T> = None | Some(value: T)

  datatype Result<+T, +E> = Ok(value: T) | Err(error: E)

  /** The byte type of Go's `[]byte`. */
  newtype byte = b: int | 0 <= b < 256
}
