/** Failure-compatible result types shared by every module of the model. */
module Wrappers {

  /** An optional value: `None` stands for PHP's `null` or a missing request field. */
  datatype Option<+T> = None | Some(value: T) {

    /** The wrapped value, or `default` when there is none (PHP's `??`). */
    function GetOr(default: T): T {
      match this
      case Some(v) => v
      case None => default
    }
  }

  /** A computation that either succeeds with a value or fails with an error,
      standing for a PHP function that returns or throws. */
  datatype Result<+R, +E> = Success(value: R) | Failure(error: E)
}
