/** The optional value used for C's nullable pointers: a vertex name that may be NULL. */
module Wrappers {

  datatype Option<+T> = None | Some(value: T)

}
