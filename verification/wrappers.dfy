/** Optional values, standing in for Go's nil `*Region`. */
module Wrappers {

  datatype Option<+T> = None | Some(value: T)
}
