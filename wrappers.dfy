/** A value that may be absent: here, a sub-value that is not valid in its domain. */
module Wrappers {
  datatype Option<+T> = None | Some(value: T)
}
