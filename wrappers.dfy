/** The two failure-carrying wrappers the model uses in place of Java's null and exceptions. */
module Wrappers {

  /** A value that may be absent: `None` stands for a Java `null` reference. */
  datatype Option<+T> = None | Some(value: T)

  /** The outcome of an operation that throws in Java: `Failure` names the exception. */
  datatype Result<+T, +E> = Success(value: T) | Failure(error: E)
}
