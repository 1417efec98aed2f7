/** An optional value, standing for an argument that may be null. */
module Wrappers {
  datatype Option<+T> = None | Some(value: T)
}
