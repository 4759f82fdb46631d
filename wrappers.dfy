/** Option and Result: the shapes of Go's `(value, error)` returns used by the model. */
module Wrappers {

  /** A value that may be absent, e.g. the integer that `strconv.Atoi` failed to produce. */
  datatype Option<+T> = None | Some(value: T)

  /** A successful value or an error value. */
  datatype Result<+T, +E> = Ok(value: T) | Err(error: E)
}
