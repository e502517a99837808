/** Failure-compatible result types shared by the whole model. */
module Wrappers {

  /** An optional value: the model of Rust's `Option`. */
  datatype Option<+T> = None | Some(value: T) {

    /** The value held, or `default` when there is none (`unwrap_or`). */
    function GetOr(default: T): T {
      match this
      case Some(v) => v
      case None => default
    }
  }

  /** Either a value or the reason the operation stopped (a Rust panic). */
  datatype Result<+R, +E> = Success(value: R) | Failure(error: E)
}
