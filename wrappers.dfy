/** Optional values and results: the model's stand-ins for Java's null / Optional and for a
    thrown exception. */
module Wrappers {

  datatype Option<+T> = None | Some(value: T) {

    /** The wrapped value, or `default` when there is none. */
    function GetOr(default: T): T {
      match this
      case Some(v) => v
      case None => default
    }
  }

  /** The outcome of a service call: a value, or the exception the call would throw. */
  datatype Result<+T, +E> = Success(value: T) | Failure(error: E)
}
