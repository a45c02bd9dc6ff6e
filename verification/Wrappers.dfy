/** Optional values, for the null pointers and unset protobuf fields of the client. */
module Wrappers {
  datatype Option<+T> = None | Some(value: T)
}
