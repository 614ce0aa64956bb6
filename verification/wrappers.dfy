/** Failure-carrying values used across the model in place of Python's exceptions. */
module Wrappers {

  /** A value that may be absent: a parser's "no match". */
  datatype Option<+T> = None | Some(value: T)

  /** Either a value or the error an operation raised. */
  datatype Result<+T, +E> = Ok(value: T) | Err(error: E)
}
