/** Optional values: a sensor reading that may be missing, a parse that may fail. */
module Wrappers {
  datatype Option<+T> = None | Some(value: T)
}
