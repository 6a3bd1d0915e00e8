/** Rust's `Option<T>`, for the results of parsing. */
module Wrappers {

  /** `None` or `Some(value)`. */
  datatype Option<+T> = None | Some(value: T)
}
