/** Optional values: JavaScript's `undefined` where a library call can return it. */
module Wrappers {

  datatype Option<+T> = None | Some(value: T)
}
