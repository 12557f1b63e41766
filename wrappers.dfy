/** Optional values: an absent importer, a failed host resolution, a failed file read. */
module Wrappers {
  datatype Option<+T> = None | Some(value: T)
}
