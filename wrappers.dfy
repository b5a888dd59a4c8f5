/** An optional value: a path the server may or may not have found. */
module Wrappers {

  datatype Option<+T> = None | Some(value: T)
}
