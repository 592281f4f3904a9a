/** Optional values: JavaScript's `undefined` results (a missing hole,
    an empty list's last element, an unknown type alias). */
module Wrappers {

  datatype Option<+T> = None | Some(value: T)
}
