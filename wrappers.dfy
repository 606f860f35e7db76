/** Optional values, used where the original code throws on malformed input. */
module Wrappers {

  datatype Option<+T> = None | Some(value: T)

}
