/** The optional value used for nullable columns and missing usernames. */
module Wrappers {
  datatype Option<+T> = None | Some(value: T)
}
