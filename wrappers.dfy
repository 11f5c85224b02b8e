/** Optional values: `None` stands for the source's `null` and for an operation that produced nothing. */
module Wrappers {
  datatype Option<+T> = None | Some(value: T)
}
