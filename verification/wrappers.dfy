/** Option and Result, the two failure-carrying shapes the model uses:
    `Option` for Rust's `Option<T>` fields and for fetch outcomes,
    `Result` for a render pass that either produces labels or panics. */
module Wrappers {

  datatype Option<+T> = None | Some(value: T) {

    /** The wrapped value, or `default` when there is none (Rust's `unwrap_or`). */
    function GetOr(default: T): T {
      match this
      case Some(v) => v
      case None => default
    }
  }

  datatype Result<+T, +E> = Ok(value: T) | Err(error: E)
}
