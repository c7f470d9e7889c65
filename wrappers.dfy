/** Optional values, for decodings that can fail. */
module Wrappers {
  datatype Option<+T> = None | Some(value: T)
}
