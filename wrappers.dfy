/** Optional values, for results that may be absent (a failed read, a missing match). */
module Wrappers {
  datatype Option<+T> = None | Some(value: T)
}
