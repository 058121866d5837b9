/** Failure-compatible wrappers: an optional value, and a value-or-error. */
module Wrappers {

  datatype Option<+T> = None | Some(value: T) {
    /** Kotlin's `orEmpty()`/elvis default: the value, or `default` when absent. */
    function GetOr(default: T): T {
      match this
      case Some(v) => v
      case None => default
    }
  }

  datatype Result<+R, +E> = Success(value: R) | Failure(error: E) {
    predicate IsFailure() {
      Failure?
    }

    function PropagateFailure<U>(): Result<U, E>
      requires Failure?
    {
      Failure(error)
    }

    function Extract(): R
      requires Success?
    {
      value
    }
  }
}
