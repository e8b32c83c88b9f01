/** Failure-compatible wrappers shared by the patient-record model. */
module Wrappers {

  /** An attribute or parameter that may be absent (JavaScript `undefined`). */
  datatype Option<+T> = None | Some(value: T) {

    /** The wrapped value, or `default` when absent. */
    function GetOr(default: T): T {
      match this
      case Some(v) => v
      case None => default
    }
  }

  /** The outcome of a call that may raise: a value, or the fault it raised. */
  datatype Result<+R, +E> = Success(value: R) | Failure(error: E)
}
