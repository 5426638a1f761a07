/** Optional values, standing for the source's `null`. */
module Wrappers {

  datatype Option<+T> = None | Some(value: T)
}
