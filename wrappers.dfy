/** Failure-carrying values shared by the whole model. */
module Wrappers {

  /** A value that may be absent (Go's nil error, a missing text field). */
  datatype Option<+T> = None | Some(value: T)

  /** The outcome of a call into a foreign library: a value or an error. */
  datatype Result<+T, +E> = Ok(value: T) | Err(error: E)

  /** An opaque Go `error` value, as returned by the encoding converter or the detector. */
  datatype Error = Error(message: string)
}
