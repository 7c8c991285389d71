/** Rust's `Option`, used for the optional arguments of the core. */
module Wrappers {

  datatype Option<+T> = None | Some(value: T)
}
