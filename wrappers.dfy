/** The optional value used for std::optional results throughout the model. */
module Wrappers {
  datatype Option<+T> = None | Some(value: T)
}
