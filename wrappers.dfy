/** Option and Result, used for Python's `None` returns and raised errors. */
module Wrappers {

  datatype Option<+T> = None | Some(value: T)

  /** `Failure` stands for an exception the Python code raises. */
  datatype Result<+T, +E> = Success(value: T) | Failure(error: E)
}
