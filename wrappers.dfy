/** Optional values (Java's null and `Optional`) and results (a value or an exception message). */
module Wrappers {

  /** `None` stands for a Java null or an empty `Optional`. */
  datatype Option<+T> = None | Some(value: T)

  /** `Failure` carries the message of the exception the source throws. */
  datatype Result<+R, +E> = Success(value: R) | Failure(error: E)
}
