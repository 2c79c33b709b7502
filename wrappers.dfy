/** Optional values: a Go `nil` pointer or error becomes `None`. */
module Wrappers {

  datatype Option<+T> = None | Some(value: T)
}
