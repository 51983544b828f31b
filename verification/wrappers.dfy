/** The two failure-carrying shapes the environment API returns: Rust's
    `Option` (for `var_os`) and `Result` (for `var`). */
module Wrappers {

  /** A value that may be absent, as Rust's `Option`. */
  datatype Option<+T> = None | Some(value: T)

  /** Either a value or an error, as Rust's `Result`. */
  datatype Result<+T, +E> = Ok(value: T) | Err(error: E)
}
