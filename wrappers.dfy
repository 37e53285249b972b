/** Failure-carrying values used where the Python code raises an exception. */
module Wrappers {

  datatype Option<+T> = None | Some(value: T)

  /** The value of a call that either returns normally (Ok) or raises (Err). */
  datatype Result<+T, +E> = Ok(value: T) | Err(error: E)

  /** The outcome of a call that returns nothing useful, or raises. */
  datatype Outcome<+E> = Pass | Fail(error: E)
}
