/** Failure-compatible wrappers used across the model: an optional value
    (Java's nullable references and `Optional`) and a result that carries
    either a value or the exception the Java code would throw. */
module Wrappers {

  datatype Option<+T> = None | Some(value: T)

  datatype Result<+T, +E> = Success(value: T) | Failure(error: E)
}
