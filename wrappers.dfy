/** Optional values: Java's nullable references (a `null` field, a `find` that returns nothing). */
module Wrappers {

  datatype Option<+T> = None | Some(value: T)
}
