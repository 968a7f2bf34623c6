/** The result of a non-blocking read: a word, or nothing. */
module Wrappers {
  datatype Option<+T> = None | Some(value: T)
}
