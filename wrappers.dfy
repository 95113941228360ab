/** Optional values for the coupling model. */
module Wrappers {

  /** A value that may be absent: the model's stand-in for a C pointer that may be NULL. */
  datatype Option<+T> = None | Some(value: T)
}
