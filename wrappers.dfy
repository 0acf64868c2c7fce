/** Option, as Rust's `Option` is used throughout the model. */
module Wrappers {
  datatype Option<+T> = None | Some(value: T)
}
