/** Optional values: a Go `(bool, *T)` pair or a result that may be `nil`. */
module Wrappers {

  datatype Option<+T> = None | Some(value: T)
}
