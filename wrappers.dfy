/** Failure-compatible results for the operations that throw in the Java code. */
module Wrappers {
  /** The two exceptions the core raises before doing any work. */
  datatype Error =
    | NullImage         // a required image is `null`
    | IllegalArgument   // mismatched dimensions or an oversized block (IllegalArgumentException)

  datatype Result<T> = Success(value: T) | Failure(error: Error)
}
