/** Optional values, standing for a JavaScript field that may be unset or null. */
module Wrappers {
  datatype Option<T> = None | Some(value: T)
}
