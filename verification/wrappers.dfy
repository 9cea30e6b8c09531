/** Optional values: a nullable column, an absent request field. */
module Wrappers {

  datatype Option<+T> = None | Some(value: T)
}
