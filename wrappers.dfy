/** The optional value used for every Ruby attribute that may be nil. */
module Wrappers {

  datatype Option<+T> = None | Some(value: T)
}
