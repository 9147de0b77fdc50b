/** Optional values: a query that may have nothing to report returns `None`. */
module Wrappers {

  datatype Option<+T> = None | Some(value: T)
}
