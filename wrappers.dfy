/** Optional values: a JavaScript `null`/`undefined`, or a number that may be NaN. */
module Wrappers {

  datatype Option<+T> = None | Some(value: T)
}
