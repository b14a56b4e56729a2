/** Optional values: what the browser storage returns for a key that may be missing. */
module Wrappers {

  datatype Option<+T> = None | Some(value: T)
}
