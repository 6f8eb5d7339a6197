/** Failure-carrying results shared by the other modules. */
module Wrappers {

  /** A value that may be absent (Rust's `Option`). */
  datatype Option<+T> = None | Some(value: T)

  /** A value or a failure (Rust's `Result`); the error payload is not modelled. */
  datatype Result<+T> = Ok(value: T) | Err
}
