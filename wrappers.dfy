/** Optional values: a database lookup that may find nothing, a header that may be absent. */
module Wrappers {
  datatype Option<+T> = None | Some(value: T)
}
