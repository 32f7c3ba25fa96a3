/** Optional values: a JavaScript `undefined` or a missing dictionary entry is `None`. */
module Wrappers {
  datatype Option<+T> = None | Some(value: T)
}
