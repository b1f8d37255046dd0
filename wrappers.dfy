/** Optional values: `undefined` in the original code becomes `None`. */
module Wrappers {

  datatype Option<+T> = None | Some(value: T)
}
