/** Optional values and fallible results shared by the notes and auth models. */
module Wrappers {

  /** A value that may be absent (`undefined` in the service code). */
  datatype Option<+T> = None | Some(value: T) {
    /** The `??` operator: the value, or the default when absent. */
    function GetOr(default: T): T {
      match this
      case Some(v) => v
      case None => default
    }
  }

  /** The outcome of a service call: a value, or the exception it throws. */
  datatype Result<+R, +E> = Success(value: R) | Failure(error: E)
}
