/** Failure-carrying results for the operations whose Java counterparts throw. */
module Wrappers {

  /** A value that may be missing (a Java `Optional` or a stream's `getAsInt` on nothing). */
  datatype Option<+T> = None | Some(value: T)

  /** A value, or the reason the Java code threw instead of returning it. */
  datatype Result<+T, +E> = Ok(value: T) | Err(error: E)

  /** A `void` Java method that either returns normally or throws. */
  datatype Outcome<+E> = Pass | Fail(error: E)
}
