/**
 * The optional value used wherever the Swift code returns an Optional, and
 * the outcome of an operation that either succeeds or fails with a message.
 */
module Wrappers {

  datatype Option<+T> = None | Some(value: T) {

    /** The wrapped value, or `default` when there is none (Swift's `??`). */
    function GetOr(default: T): T {
      match this
      case Some(v) => v
      case None => default
    }
  }

  datatype Result<+T> = Ok(value: T) | Failure(error: string)
}
