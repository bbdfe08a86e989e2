/** Optional values, used where the C++ code either produces something or gives up. */
module Wrappers {
  datatype Option<+T> = None | Some(value: T)
}
