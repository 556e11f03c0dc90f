/** Optional values and success/failure results, standing in for Kotlin's
    nullable types and for calls that either return or throw. */
module Wrappers {

  /** A Kotlin `T?`: `None` is `null`. */
  datatype Option<+T> = None | Some(value: T) {
    /** Kotlin's `x ?: default`. */
    function GetOr(default: T): T {
      match this
      case Some(v) => v
      case None => default
    }
  }

  /** The outcome of a call that returns a value or throws an exception. */
  datatype Result<+T, +E> = Success(value: T) | Failure(error: E)

  /** The outcome of a call that returns `Unit` or throws an exception. */
  datatype Outcome<+E> = Pass | Fail(error: E)
}
