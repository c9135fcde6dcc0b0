/** Option and Result values used in place of C# null and exceptions. */
module Wrappers {

  /** None stands for a C# null reference. */
  datatype Option<+T> = None | Some(value: T)

  /** Failure stands for an exception thrown out of an operation. */
  datatype Result<+T, +E> = Success(value: T) | Failure(error: E)
}
