/** The optional value used for results of I/O that may fail. */
module Wrappers {

  datatype Option<+T> = None | Some(value: T)
}
