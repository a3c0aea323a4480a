/** Failure-carrying values shared by every module of the model. */
module Wrappers {

  /** A value that may be absent: pandas' NaN, Python's None, "not found". */
  datatype Option<+T> = None | Some(value: T)

  /** The result of an operation that raises in the source. */
  datatype Result<+T, +E> = Success(value: T) | Failure(error: E)
}
