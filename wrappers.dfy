/** The optional value used wherever the program may return nothing. */
module Wrappers {
  datatype Option<+T> = None | Some(value: T)
}
