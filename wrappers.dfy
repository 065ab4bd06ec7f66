/** Optional values: a Java field that may hold null becomes an Option. */
module Wrappers {

  datatype Option<+T> = None | Some(value: T)
}
