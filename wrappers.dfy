/** Option and Result: Python's `None` returns and raised exceptions, as values. */
module Wrappers {

  datatype Option<+T> = None | Some(value: T)

  /** `Failure` stands for an exception the Python code raises. */
  datatype Result<+T, +E> = Success(value: T) | Failure(error: E)
}
