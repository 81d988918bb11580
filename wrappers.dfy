/** Optional values: JavaScript's `null`/`undefined` where the editor keeps "no value". */
module Wrappers {
  datatype Option<+T> = None | Some(value: T)
}
