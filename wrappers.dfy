/** Optional values: a form field that may be absent, a session key that may be missing. */
module Wrappers {
  datatype Option<+T> = None | Some(value: T)
}
