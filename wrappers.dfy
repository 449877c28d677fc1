/** Option and Result, the two failure-carrying types the model returns. */
module Wrappers {

  datatype Option<+T> = None | Some(value: T)

  /** `Err` stands for a path on which the program panics (an `unwrap` that fails). */
  datatype Result<+T, +E> = Ok(value: T) | Err(error: E)
}
