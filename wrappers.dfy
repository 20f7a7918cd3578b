/** The optional value used throughout the model for `undefined`. */
module Wrappers {

  datatype Option<T> = None | Some(value: T)
}
