/** Optional values and results with an error, used where the Ruby code
    returns nil or raises. */
module Outcomes {

  /** A value that may be absent (Ruby's nil). */
  datatype Option<+T> = None | Some(value: T) {

    /** The carried value, or `default` when there is none (Ruby's `x || default`). */
    function GetOr(default: T): T {
      match this
      case Some(v) => v
      case None => default
    }
  }

  /** The outcome of an operation that may raise: a value or an error message. */
  datatype Result<+T> = Success(value: T) | Failure(error: string)
}
