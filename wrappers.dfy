/** Optional values: `None` stands for an absent argument. */
module Wrappers {
  datatype Option<+T> = None | Some(value: T)
}
