/** Failure-compatible wrappers shared by the retry executor and the shard table:
    `Option` for lookups that may find nothing, `Result` for the outcome of a
    fallible operation (Rust's `Option` and `Result`). */
module Wrappers {

  /** An optional value, as returned by a map lookup. */
  datatype Option<+T> = None | Some(value: T)

  /** The outcome of a fallible operation: a value or an error. */
  datatype Result<+T, +E> = Ok(value: T) | Err(error: E)

}
