/** Optional values, used for a coordinate or a parse that may be absent. */
module Wrappers {

  datatype Option<+T> = None | Some(value: T)
}
