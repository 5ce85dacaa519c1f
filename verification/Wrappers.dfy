/** Optional values: what a C++ call returns, or the exception it throws instead. */
module Wrappers {
  datatype Option<+T> = None | Some(value: T)
}
