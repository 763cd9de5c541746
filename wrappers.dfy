/** Option and Result, the two failure-carrying datatypes the model uses. */
module Wrappers {

  /** A Java reference that may be null: `None` stands for null. */
  datatype Option<+T> = None | Some(value: T)

  /** The outcome of an engine call that may throw. */
  datatype Result<+R, +E> = Success(value: R) | Failure(error: E)
}
