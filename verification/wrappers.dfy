/** Optional values, used for the parent argument of an append. */
module Wrappers {

  datatype Option<+T> = None | Some(value: T)
}
