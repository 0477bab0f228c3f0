/** Option and Result, standing in for Java's nullable references and exceptions. */
module Wrappers {

  /** `None` plays the part of Java's `null`. */
  datatype Option<+T> = None | Some(value: T)

  /** `Failure` plays the part of a thrown exception. */
  datatype Result<+R, +E> = Success(value: R) | Failure(error: E)
}
