/** An optional value: a pointer that may be NULL, a read that may fail. */
module Wrappers {
  datatype Option<+T> = None | Some(value: T)
}
