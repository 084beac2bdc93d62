/** The optional value returned by an iterator step. */
module Wrappers {
  datatype Option<+T> = None | Some(value: T)
}
