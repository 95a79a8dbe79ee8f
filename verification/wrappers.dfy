/** Optional values: the model's stand-in for JavaScript's `null`. */
module Wrappers {

  /** `None` is an absent value (`null`); `Some(v)` carries `v`. */
  datatype Option<+T> = None | Some(value: T)
}
