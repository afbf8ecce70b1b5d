/** Option and result wrappers shared by the whole model. */
module Wrappers {

  /** A Python value that may be None. */
  datatype Option<+T> = None | Some(value: T)

  /** The outcome of a call that returns a value or raises E. */
  datatype Result<+T, +E> = Success(value: T) | Failure(error: E)

  /** The outcome of a call that returns nothing or raises E. */
  datatype Outcome<+E> = Pass | Fail(error: E)
}
