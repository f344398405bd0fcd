/** The optional value used wherever the source passes a value that may be NULL or a call that may fail. */
module Wrappers {
  datatype Option<T> = None | Some(value: T)
}
