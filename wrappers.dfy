/** Optional values: the model's stand-in for a weak handle and for Rust's Option. */
module Wrappers {
  datatype Option<+T> = None | Some(value: T)
}
