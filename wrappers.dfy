/** Optional values, used for HTML attributes that may be absent. */
module Wrappers {
  datatype Option<+T> = None | Some(value: T)
}
