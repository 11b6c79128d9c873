/** An optional value: used for the weight histogram, which only MC runs write. */
module Wrappers {
  datatype Option<+T> = None | Some(value: T)
}
