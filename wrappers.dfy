/** The absent-value and exception wrappers used throughout the model. */
module Wrappers {

  /** A possibly absent value; `None` stands for a Java `null` reference. */
  datatype Option<+T> = None | Some(value: T)

  /** The outcome of an operation that either returns a value or throws. */
  datatype Result<+R, +E> = Success(value: R) | Failure(error: E)
}
