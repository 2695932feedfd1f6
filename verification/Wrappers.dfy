/** An optional value: a pointer that may be NULL, or a search that may find nothing. */
module Wrappers {
  datatype Option<+T> = None | Some(value: T)
}
