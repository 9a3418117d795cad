/** The optional value the decoder and the app state use in place of Rust's `Option`. */
module Wrappers {
  datatype Option<+T> = None | Some(value: T)
}
