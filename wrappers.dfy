/** Outcome types that stand in for Java's `null` returns and thrown exceptions. */
module Wrappers {

  /** A lookup that may find nothing: `None` is the Java `null` of a missing row. */
  datatype Option<+T> = None | Some(value: T)

  /** A service call that either returns a value or throws (the exception text is not modelled). */
  datatype Result<+T> = Success(value: T) | Failure

  /** A validation step: it passes, or it fails for the given reason. */
  datatype Outcome<+E> = Pass | Fail(reason: E)
}
