/** Failure-carrying result types and the Java exceptions the core throws. */
module Wrappers {

  /** A Java reference that may be null: `None` stands for null. */
  datatype Option<+T> = None | Some(value: T)

  /** The result of a Java call that returns a value or throws. */
  datatype Result<+R, +E> = Success(value: R) | Failure(error: E)

  /** The result of a `void` Java call that may throw. */
  datatype Outcome<+E> = Pass | Fail(error: E)

  /**
   * The exceptions thrown by the core. Messages come from a resource
   * bundle; they are kept here as the bundle key. An exception raised by
   * the JDK's file operations carries its class name instead, as in
   * `IO("AccessDeniedException")`.
   */
  datatype Exception =
    | IllegalArgument(key: string)
    | IllegalState(key: string)
    | NullPointer(key: string)
    | IO(key: string)
}
