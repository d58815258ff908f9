/** The optional value that a `.first()` query or a primary-key lookup returns. */
module Wrappers {
  datatype Option<T> = None | Some(value: T)
}
