/** Optional values, shared by all modules of the model. */
module Wrappers {

  datatype Option<+T> = None | Some(value: T)
}
