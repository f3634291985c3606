/** Optional values: JavaScript's `undefined` where a property may be missing. */
module Wrappers {
  datatype Option<+T> = None | Some(value: T)
}
