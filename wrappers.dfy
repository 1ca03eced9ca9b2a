/** Failure-compatible result types used throughout the model. */
module Wrappers {

  /** A value that may be absent: `Option<String>` in the search. */
  datatype Option<+T> = None | Some(value: T)

  /** A value or the reason it could not be produced: the panics of the net parser. */
  datatype Result<+T, +E> = Ok(value: T) | Err(error: E)
}
