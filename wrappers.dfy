/** Small helper datatypes shared by the modules of the analyzer model. */
module Wrappers {

  /** Python's `None`-or-value, used for optional strings such as an issue's
      enclosing function or an `ImportFrom` node's module. */
  datatype Option<+T> = None | Some(value: T)
}
