/** Optional values: JavaScript's `undefined` / absent field, as a datatype. */
module Wrappers {

  datatype Option<+T> = None | Some(value: T)
}
