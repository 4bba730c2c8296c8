/** Optional values, used where the Java code returns null or fails. */
module Wrappers {
  datatype Option<+T> = None | Some(value: T)
}
