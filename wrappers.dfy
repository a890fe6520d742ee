/** Optional values, used where the modelled code either produces a value or signals failure. */
module Wrappers {

  datatype Option<+T> = None | Some(value: T)
}
