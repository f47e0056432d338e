/** The optional value used for "no file", "no conversion" and "not a menu option". */
module Wrappers {
  datatype Option<+T> = None | Some(value: T)
}
