/** Optional values: a nearest-point record is either absent or a coordinate pair. */
module Wrappers {
  datatype Option<+T> = None | Some(value: T)
}
