/** Optional values: a form field not filled in, a JavaScript `undefined` or `null`. */
module Wrappers {

  datatype Option<+T> = None | Some(value: T)
}
