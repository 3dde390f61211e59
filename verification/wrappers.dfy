/** Option and Result values shared by every module of the model. */
module Wrappers {

  /** A value that may be absent (JavaScript's `null`/`undefined`). */
  datatype Option<+T> = None | Some(value: T)

  /** The outcome of a call that may reject (a rejected promise or a thrown error). */
  datatype Result<+T, +E> = Ok(value: T) | Err(error: E)
}
