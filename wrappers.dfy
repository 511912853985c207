/** The optional value an iteration yields while it stays defined. */
module Wrappers {
  datatype Option<T> = None | Some(value: T)
}
