/** Optional values, for the operations of the library that return
    `false` or `null`. */
module Wrappers {

  datatype Option<T> = None | Some(value: T)
}
