/** Optional values: a result the source may leave unset, a payload that may fail to parse. */
module Wrappers {

  datatype Option<+T> = None | Some(value: T)
}
