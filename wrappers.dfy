/** Optional values: a JavaScript `undefined`/`null` or a missing record. */
module Wrappers {
  datatype Option<+T> = None | Some(value: T)
}
