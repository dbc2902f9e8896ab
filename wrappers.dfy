/** Option and Result, the failure-carrying values used throughout the model. */
module Wrappers {

  /** A value or nothing: JavaScript's `T | null` (or `T | undefined`). */
  datatype Option<+T> = None | Some(value: T)

  /** A value or a thrown error, as an awaited promise yields. */
  datatype Result<+T, +E> = Ok(value: T) | Err(error: E)
}
