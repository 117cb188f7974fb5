/** The optional value that the parsers of src/main.rs return (Rust's `Option`). */
module Wrappers {
  datatype Option<+T> = None | Some(value: T)
}
