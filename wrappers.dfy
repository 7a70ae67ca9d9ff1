/** Bytes and failure-carrying results shared by the modules of this model. */
module Wrappers {

  /** A value that may be absent: a null pointer of the source. */
  datatype Option<+T> = None | Some(value: T)

  /** The outcome of a lookup that can throw: a value, or the error thrown. */
  datatype Result<+T, +E> = Ok(value: T) | Err(error: E)

  /** An unsigned char: a stored alpha value, or one byte of a file or string. */
  type byte = b: int | 0 <= b < 256
}
