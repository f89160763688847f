/** Option and Result, standing for Python's `None` returns and raised exceptions. */
module Wrappers {

  datatype Option<+T> = None | Some(value: T)

  /** `Failure` stands for an exception that the Python code raises (or re-raises). */
  datatype Result<+T, +E> = Success(value: T) | Failure(error: E)
}
