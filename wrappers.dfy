/** A value that may be absent: JavaScript's `null` result. */
module Wrappers {
  datatype Option<+T> = None | Some(value: T)
}
