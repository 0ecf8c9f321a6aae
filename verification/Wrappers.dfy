/** Result types shared by the models of functions that may have nothing to return. */
module Wrappers {
  datatype Option<+T> = None | Some(value: T)
}
