/** A value that may be missing: a nil in the script, or a parse that fails. */
module Wrappers {
  datatype Option<T> = None | Some(value: T)
}
