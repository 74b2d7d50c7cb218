/** Optional values: a SQL NULL column, a JSON field that is absent or null. */
module Wrappers {

  datatype Option<+T> = None | Some(value: T)
}
