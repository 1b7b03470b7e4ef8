/** The optional value used for parent handles and for the best path so far. */
module Wrappers {

  datatype Option<+T> = None | Some(value: T)
}
