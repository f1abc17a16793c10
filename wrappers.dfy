/** The optional-value datatype that stands for Rust's `Option` throughout the model. */
module Wrappers {

  datatype Option<+T> = None | Some(value: T)
}
