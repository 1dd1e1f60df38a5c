/** Optional values: JavaScript's `null` / `undefined` where the source tests for presence. */
module Wrappers {

  datatype Option<+T> = None | Some(value: T)
}
