/** Optional values: a missing column, a lookup that found no row, a header that is absent. */
module Wrappers {
  datatype Option<+T> = None | Some(value: T)
}
