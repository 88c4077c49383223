/** Optional values: the model's stand-in for JavaScript's `null` and for "no match". */
module Wrappers {

  datatype Option<+T> = None | Some(value: T)
}
