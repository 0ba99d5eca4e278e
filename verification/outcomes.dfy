/** Failure-carrying wrappers shared by the rest of the model. */
module Outcomes {

  /** A value that may be absent, as Rust's `Option`. */
  datatype Option<+T> = None | Some(value: T)

  /** A value or the reason there is none; `Err` stands for a program abort. */
  datatype Result<+T, +E> = Ok(value: T) | Err(error: E)
}
