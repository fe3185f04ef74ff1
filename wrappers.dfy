/** The optional value used where the game keeps a possibly-null reference. */
module Wrappers {
  datatype Option<T> = None | Some(value: T)
}
