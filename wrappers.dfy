/** The optional value used for "no text on this page" and "no regex match". */
module Wrappers {
  datatype Option<+T> = None | Some(value: T)
}
