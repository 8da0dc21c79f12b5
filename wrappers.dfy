/** Option and Result, the two wrappers the model uses. */
module Wrappers {

  datatype Option<+T> = None | Some(value: T)

  /** Success carries a value; Failure carries the exception the source would raise. */
  datatype Result<+R, +E> = Success(value: R) | Failure(error: E)
}
