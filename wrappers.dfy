/** The optional-value type used where a library call of the source can fail. */
module Wrappers {

  datatype Option<+T> = None | Some(value: T)
}
