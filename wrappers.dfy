/** Optional values, standing for Go's optional `*T` fields that may be `nil`. */
module Wrappers {

  datatype Option<+T> = None | Some(value: T)
}
