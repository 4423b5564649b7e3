/** The Option type used for C's NULL pointers and for searches that can fail. */
module Wrappers {

  datatype Option<+T> = None | Some(value: T)
}
