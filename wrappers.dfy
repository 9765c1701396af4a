/** Optional values: a description that may be absent, a calendar that may not exist. */
module Wrappers {

  datatype Option<+T> = None | Some(value: T)
}
