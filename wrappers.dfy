/** Optional values: JavaScript's `undefined` / `null` on the model side. */
module Wrappers {

  datatype Option<+T> = None | Some(value: T)
}
