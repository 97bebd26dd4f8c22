/** The absent-or-present value that stands for a C pointer that may be NULL. */
module Wrappers {

  datatype Option<+T> = None | Some(value: T)
}
