/** Option and Result types used throughout the model. */
module Wrappers {

  /** A value that may be absent (Go's nil pointer). */
  datatype Option<T> = None | Some(value: T)

  /** The outcome of a step that can fail with a Go error; the error text is opaque. */
  datatype Result<T> = Ok(value: T) | Err(error: string)
}
