/** Optional values, used for the results of parsing. */
module Wrappers {
  datatype Option<+T> = None | Some(value: T)
}
