/** Small helper datatypes shared by the model. */
module Wrappers {

  /** A value that may be absent; stands for Python's `None` or a value. */
  datatype Option<+T> = None | Some(value: T)
}
