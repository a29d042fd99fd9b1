/**
 * Rust's `Option` and `Result`, and the `u64` width, as used by the
 * backend's controller, cache and server code.
 */
module Wrappers {

  /** Rust's `u64` (and `usize` on a 64-bit target). */
  type U64 = x: int | 0 <= x < 0x1_0000_0000_0000_0000

  /** `Option<T>`: a value that may be absent. */
  datatype Option<+T> = None | Some(value: T) {

    /** Returns the value, or `default` when there is none (Rust's `unwrap_or`). */
    function GetOr(default: T): (r: T)
      ensures Some? ==> r == value
      ensures None? ==> r == default
    {
      match this
      case Some(v) => v
      case None => default
    }
  }

  /** `Result<T, E>`: a success value or an error. */
  datatype Result<+T, +E> = Ok(value: T) | Err(error: E) {

    /** Rust's `is_ok()`. */
    predicate IsOk() {
      Ok?
    }
  }
}
