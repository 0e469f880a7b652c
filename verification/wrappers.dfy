/** Optional values: a missing storage entry, an unset rule attribute, no match. */
module Wrappers {
  datatype Option<+T> = None | Some(value: T)
}
