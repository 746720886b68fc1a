/** Optional values, as the modelled programs use them. */
module Wrappers {
  datatype Option<+T> = None | Some(value: T)
}
