/** Optional values: a table cell that may be missing. */
module Wrappers {

  datatype Option<+T> = None | Some(value: T)
}
