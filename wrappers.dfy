/** Optional values, standing for the null pointers of the modelled C++ code. */
module Wrappers {

  datatype Option<+T> = None | Some(value: T)
}
