/** Optional values: a key that may be absent from a Python dict. */
module Wrappers {

  datatype Option<+T> = None | Some(value: T)

}
