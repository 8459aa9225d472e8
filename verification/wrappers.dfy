/** Option and Result, the two failure-carrying datatypes the model uses in
    place of Python's `None` and raised `ValueError`s. */
module Wrappers {

  /** A value that may be absent (Python's `Optional[T]`). */
  datatype Option<+T> = None | Some(value: T)

  /** Either a computed value or the error that stopped the computation. */
  datatype Result<+R, +E> = Success(value: R) | Failure(error: E)
}
