/** Failure-compatible wrappers shared by every module of the model. */
module Wrappers {

  /** A value that may be absent: JavaScript's `null`/`undefined` and a cancelled dialog. */
  datatype Option<+T> = None | Some(value: T)

  /** An operation that either produces a new value or reports why it refused
      (the application reports every refusal through an `alert` and changes nothing). */
  datatype Result<+T, +E> = Ok(value: T) | Err(error: E)
}
