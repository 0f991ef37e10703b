/** Optional values: `None` stands for the `null` that the graph's lookups return. */
module Wrappers {
  datatype Option<+T> = None | Some(value: T)
}
