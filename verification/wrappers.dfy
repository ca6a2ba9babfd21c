/** Failure-compatible wrappers shared by the queue-store model. */
module Wrappers {

  /** A value that may be absent; stands for PHP's `null` returns. */
  datatype Option<+T> = None | Some(value: T) {

    /** Returns the carried value, or `default` when there is none (PHP's `??`). */
    function GetOr(default: T): T {
      match this
      case Some(v) => v
      case None => default
    }
  }

  /** Either a value or the exception an operation raised. */
  datatype Result<+T, +E> = Ok(value: T) | Err(error: E)
}
