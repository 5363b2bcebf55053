/** Optional values: a read that runs out of input, a catalog slot not yet filled. */
module Wrappers {
  datatype Option<+T> = None | Some(value: T)
}
