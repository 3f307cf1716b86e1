/** The optional value that stands for a possibly-NULL pointer or a failed read. */
module Wrappers {
  datatype Option<+T> = None | Some(value: T)
}
