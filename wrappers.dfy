/** Option and Result, the two failure-carrying shapes used across the model. */
module Wrappers {

  datatype Option<+T> = None | Some(value: T)

  /** Success carries a value; Failure carries the error that the source reports. */
  datatype Result<+T, +E> = Success(value: T) | Failure(error: E)
}
