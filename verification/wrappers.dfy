/** The optional value the cache hands back from a lookup (Rust's `Option`). */
module Wrappers {

  datatype Option<+T> = None | Some(value: T)
}
