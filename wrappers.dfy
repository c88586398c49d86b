/** The optional value used wherever the C code returns a NULL pointer on failure. */
module Wrappers {
  datatype Option<+T> = None | Some(value: T)
}
