/** The optional value used where the program may hold Python's None. */
module Wrappers {

  datatype Option<+T> = None | Some(value: T)
}
