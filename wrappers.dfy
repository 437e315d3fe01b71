/** Optional values: a JavaScript `undefined` or `null` where the source has one. */
module Wrappers {

  datatype Option<T> = None | Some(value: T)
}
