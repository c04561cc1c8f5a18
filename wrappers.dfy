/** Optional values: `None` stands for the C code's NULL pointer or its -1 "no result" codes. */
module Wrappers {

  datatype Option<T> = None | Some(value: T)

}
