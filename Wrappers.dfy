/** Optional values, used where the source returns null or "no answer". */
module Wrappers {

  datatype Option<+T> = None | Some(value: T)
}
