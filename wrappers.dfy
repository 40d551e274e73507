/** Optional values, standing in for JavaScript's `null` results. */
module Wrappers {
  datatype Option<+T> = None | Some(value: T)
}
