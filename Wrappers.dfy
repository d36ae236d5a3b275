/** The optional value used wherever the source returns None or raises on a bad input. */
module Wrappers {
  datatype Option<+T> = None | Some(value: T)
}
