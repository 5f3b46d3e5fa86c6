/** The optional value used wherever the C code returns or accepts a NULL pointer. */
module Wrappers {

  datatype Option<+T> = None | Some(value: T)
}
