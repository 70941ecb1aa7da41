/** Optional values and results with an error, shared by the other modules. */
module Wrappers {

  /** An optional value; the model's rendering of a Go pointer that may be nil. */
  datatype Option<+T> = None | Some(value: T)

  /** A value or an error; the model's rendering of a Go `(value, err)` pair. */
  datatype Result<+T, +E> = Ok(value: T) | Err(error: E)
}
