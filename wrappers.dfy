/** The optional value used where the program gets "a value or an error" from a library call. */
module Wrappers {

  datatype Option<+T> = None | Some(value: T)
}
