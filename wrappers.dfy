/** Failure-carrying values shared by the settings mapping and the encoder. */
module Wrappers {

  datatype Option<+T> = None | Some(value: T) {
    /** The carried value, or `default` when there is none (Rust's `unwrap_or`). */
    function GetOr(default: T): T {
      match this
      case Some(v) => v
      case None => default
    }
  }

  datatype Result<+T, +E> = Ok(value: T) | Err(error: E)

  /** A result that carries no value: `Result<(), E>` in the source. */
  datatype Outcome<+E> = Pass | Fail(error: E)
}
