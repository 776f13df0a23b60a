/** Optional values, standing in for the Python idiom of a call that may raise. */
module Wrappers {
  datatype Option<+T> = None | Some(value: T)
}
