/** A value that may be missing: the NULL, -1 or false of the C functions. */
module Wrappers {
  datatype Option<+T> = None | Some(value: T)
}
