/** The optional value Rust's `Option` and the `.ok()` of a `Result` produce. */
module Options {
  datatype Option<+T> = None | Some(value: T)
}
