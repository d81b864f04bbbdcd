/** Optional values and success/failure results shared by the playground modules. */
module Wrappers {

  /** A value that may be absent: stands for TypeScript's `T | null` and `T | undefined`. */
  datatype Option<+T> = None | Some(value: T) {

    /** The wrapped value, or `default` when there is none. */
    function GetOr(default: T): T {
      match this
      case Some(v) => v
      case None => default
    }
  }

  /** The outcome of an operation that may throw: `Ok` carries the returned value,
      `Err` the thrown error. */
  datatype Result<+T, +E> = Ok(value: T) | Err(error: E)

  /** How a call into code outside the model ends: it returns normally, or it throws (or
      its promise rejects with) the given error text. Such calls take their outcome as an
      input, one per call. */
  datatype Outcome = Completes | Throws(error: string)
}
