/** The optional value used by every day's model in place of Rust's `Option`. */
module Wrappers {

  datatype Option<+T> = None | Some(value: T)
}
