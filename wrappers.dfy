/** Optional values, for attributes and elements that a search-result row may lack. */
module Wrappers {

  datatype Option<+T> = None | Some(value: T)

}
