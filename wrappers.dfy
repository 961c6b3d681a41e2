/** The optional value used for the model's error paths. */
module Wrappers {
  datatype Option<+T> = None | Some(value: T)
}
