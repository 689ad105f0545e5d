/** Optional values, used where the JavaScript code has `null`, `NaN` or "no match". */
module Wrappers {

  datatype Option<+T> = None | Some(value: T)
}
