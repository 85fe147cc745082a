/** Failure-carrying result types shared by the whole model. */
module Wrappers {

  /** A value that may be absent: Python's `None` or an optional result. */
  datatype Option<+T> = None | Some(value: T)

  /** A computation that either succeeds or raises: the model of a Python
      function that returns a value or raises an exception. */
  datatype Result<+R, +E> = Success(value: R) | Failure(error: E)
}
