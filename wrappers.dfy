/** The optional value used for "find" results and for the notice slot. */
module Wrappers {
  datatype Option<+T> = None | Some(value: T)
}
