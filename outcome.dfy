/** Failure-carrying return values used throughout the model. */
module Outcome {

  /** An optional value (Rust's `Option`). */
  datatype Option<+T> = None | Some(value: T)

  /** Either a value or an error (Rust's `Result`). */
  datatype Result<+T, +E> = Ok(value: T) | Err(error: E)
}
