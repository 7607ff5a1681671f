/** Optional values: a missing header, a failed token verification, a missing role. */
module Wrappers {
  datatype Option<+T> = None | Some(value: T)
}
