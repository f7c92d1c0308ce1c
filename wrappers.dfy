/** Python's None and raised exceptions, as values. */
module Wrappers {

  /** An optional value: Python's `None` or a present value. */
  datatype Option<+T> = None | Some(value: T)

  /** The outcome of an operation that may raise: the value it returns, or the error it raises. */
  datatype Result<+T, +E> = Success(value: T) | Failure(error: E)
}
