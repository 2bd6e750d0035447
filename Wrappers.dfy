/** The optional value used where the source stops a parse quietly. */
module Wrappers {

  datatype Option<+T> = None | Some(value: T)
}
