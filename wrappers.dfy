/** Rust's `Option`, as used for every field of a GSync configuration. */
module Wrappers {

  /** A value that may be absent; absence is distinct from the empty string. */
  datatype Option<+T> = None | Some(value: T)
}
