/** Optional values: a JavaScript `undefined`, a missing storage key or a row
    that a query did not find is `None`. */
module Wrappers {

  datatype Option<+T> = None | Some(value: T)
}
