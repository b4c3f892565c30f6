/** The optional value used for lookups that may find nothing (JavaScript's undefined / null). */
module Wrappers {
  datatype Option<+T> = None | Some(value: T)
}
