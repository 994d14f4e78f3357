/** The optional value used where the C code passes or returns an address that may be NULL. */
module Wrappers {
  datatype Option<+T> = None | Some(value: T)
}
