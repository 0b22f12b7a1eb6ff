/** Optional values, for the places where the relay reads `undefined`, `null` or a failed match. */
module Wrappers {

  datatype Option<+T> = None | Some(value: T)
}
