/** Optional values: stand for the source's null references. */
module Wrappers {
  datatype Option<+T> = None | Some(value: T)
}
