/** Optional values: JavaScript's `null`/`undefined` for a field or a state
    that may be absent. */
module Wrappers {

  datatype Option<+T> = None | Some(value: T)
}
