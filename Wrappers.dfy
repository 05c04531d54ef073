/** Failure-carrying values shared by every module of the crawler model. */
module Wrappers {

  datatype Option<+T> = None | Some(value: T)

  /** A value, or the exception that was raised instead of producing it. */
  datatype Result<+T, +E> = Ok(value: T) | Err(error: E)

  /** A call that returns nothing: it either returns normally or raises. */
  datatype Outcome<+E> = Pass | Fail(error: E)
}
