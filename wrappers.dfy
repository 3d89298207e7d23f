/** The optional value used for a map lookup, a parsed path segment and a decoded request body. */
module Wrappers {

  datatype Option<+T> = None | Some(value: T)
}
