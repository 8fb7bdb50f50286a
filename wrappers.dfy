/** The optional value used for "no match found" and for the verbose trace. */
module Wrappers {
  datatype Option<+T> = None | Some(value: T)
}
