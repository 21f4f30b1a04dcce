/** Optional values: a form field that may be left blank, a lookup that may miss. */
module Wrappers {

  datatype Option<+T> = None | Some(value: T)
}
