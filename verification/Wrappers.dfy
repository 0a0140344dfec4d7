/** Optional values, used across the modules. */
module Wrappers {
  datatype Option<+T> = None | Some(value: T)
}
