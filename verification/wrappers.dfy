/** Failure-compatible wrapper types shared by the other modules. */
module Wrappers {

  /** An optional value: a missing query parameter, an absent JSON field. */
  datatype Option<+T> = None | Some(value: T) {

    /** The wrapped value, or `default` when there is none. */
    function GetOr(default: T): T {
      match this
      case Some(v) => v
      case None => default
    }
  }

  /** The outcome of an operation that may throw: a value or an error message. */
  datatype Result<+R> = Ok(value: R) | Err(message: string)
}
