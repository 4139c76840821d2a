/** The optional value that stands for a nullable pointer and for Rust's `Option`. */
module Wrappers {
  datatype Option<+T> = None | Some(value: T)
}
