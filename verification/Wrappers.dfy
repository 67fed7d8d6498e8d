/** A value that may be missing: the source's null pointers and error codes. */
module Wrappers {
  datatype Option<+T> = None | Some(value: T)
}
