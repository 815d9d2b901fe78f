/** The optional value used wherever the program may pass nothing. */
module Wrappers {
  datatype Option<+T> = None | Some(value: T)
}
