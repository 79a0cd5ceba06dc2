/** The optional value shared by the model. */
module Wrappers {

  /** A value that may be absent (a Python attribute that is missing or `None`). */
  datatype Option<+T> = None | Some(value: T)
}
