/** Optional values, shared by the map's find and the deque's rpeek. */
module Wrappers {
  datatype Option<T> = None | Some(value: T)
}
