/** The optional value returned by searches and by the command parser. */
module Wrappers {
  datatype Option<+T> = None | Some(value: T)
}
