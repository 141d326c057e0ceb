/** The usual Some/None datatype, standing in for a null pointer. */
module Wrappers {

  datatype Option<+T> = None | Some(value: T)
}
