/** Optional values: a missing feature node, an absent children list, a lookup with no hit. */
module Wrappers {
  datatype Option<+T> = None | Some(value: T)
}
