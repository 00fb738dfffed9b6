/** The optional value used across the model for "a match or none", "a header or none". */
module Wrappers {
  datatype Option<+T> = None | Some(value: T)
}
