/** The optional value that the server's combinator chains pass along. */
module Wrappers {
  datatype Option<+T> = None | Some(value: T)
}
