/** Option and Result, the two failure-carrying shapes the audit tool uses:
    `Option` for optional payload fields and derived views, `Result` for
    decode outcomes, row reads and store access. */
module Wrappers {

  datatype Option<+T> = None | Some(value: T) {

    /** The value, or `default` when there is none (Rust's `unwrap_or`). */
    function GetOr(default: T): T {
      match this
      case Some(v) => v
      case None => default
    }
  }

  datatype Result<+T, +E> = Success(value: T) | Failure(error: E)
}
