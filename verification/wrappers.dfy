/** The optional value used wherever a C routine answers with NULL or -1. */
module Wrappers {

  datatype Option<+T> = None | Some(value: T)
}
