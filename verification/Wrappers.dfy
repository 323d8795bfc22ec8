/** The usual optional value, for the source's null pointers and "not found" results. */
module Wrappers {
  datatype Option<+T> = None | Some(value: T)
}
