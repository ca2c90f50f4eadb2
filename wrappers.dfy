/** Optional values: an iterator designates an element, or nothing for end(). */
module Wrappers {

  datatype Option<+T> = None | Some(value: T)
}
