/** Optional values, standing for JavaScript's null / undefined and SQL NULL. */
module Wrappers {
  datatype Option<+T> = None | Some(value: T)
}
