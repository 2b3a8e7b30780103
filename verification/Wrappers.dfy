/** A value that may be absent: the null pointers the source returns for "not found". */
module Wrappers {
  datatype Option<+T> = None | Some(value: T)
}
