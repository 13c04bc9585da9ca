/** A nullable value: a text column that may hold NULL, or a cache entry that may be missing. */
module Wrappers {
  datatype Option<+T> = None | Some(value: T)
}
