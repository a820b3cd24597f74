/** Failure-carrying values used throughout the model in place of Python's
    `None` results and raised exceptions. */
module Wrappers {

  /** A value that may be absent, like a Python `Optional[...]` result. */
  datatype Option<+T> = None | Some(value: T)

  /** A computed value or the error that stopped the computation. */
  datatype Result<+T, +E> = Success(value: T) | Failure(error: E)

  /** The completion of a command that returns nothing: it either passes or
      raises the given error. */
  datatype Outcome<+E> = Pass | Fail(error: E)
}
