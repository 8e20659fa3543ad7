/** Option and Result: the nil-or-value and success-or-failure shapes the
    modelled code passes around (Ruby's nil and Dry::Monads' Result). */
module Wrappers {

  /** A value that may be absent (Ruby's nil). */
  datatype Option<+T> = None | Some(value: T) {

    /** The wrapped value, or `default` when absent. */
    function GetOr(default: T): T {
      match this
      case Some(v) => v
      case None => default
    }
  }

  /** Dry::Monads' `Success(value)` / `Failure(error)`. */
  datatype Result<+R, +E> = Success(value: R) | Failure(error: E)
}
