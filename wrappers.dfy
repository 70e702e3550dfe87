/** Optional values, used for nullable links and empty frame slots. */
module Wrappers {
  datatype Option<+T> = None | Some(value: T)
}
