/** Optional values: the model's stand-in for a nullable database column. */
module Wrappers {

  datatype Option<+T> = None | Some(value: T)
}
