/** The optional value used for attributes the block may leave unset. */
module Wrappers {

  datatype Option<+T> = None | Some(value: T)
}
