/** Optional values, used where the source returns an `Option` or may fail. */
module Wrappers {

  datatype Option<+T> = None | Some(value: T)

}
