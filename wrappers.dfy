/** Optional value, used where the tool has no result to give. */
module Wrappers {
  datatype Option<+T> = None | Some(value: T)
}
