/** The optional-value type used wherever the blog's Rust code returns `Option`. */
module Wrappers {
  datatype Option<+T> = None | Some(value: T)
}
