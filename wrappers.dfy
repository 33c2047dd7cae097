/** Optional values: the outcome of an operation that may have nothing to give back. */
module Wrappers {

  datatype Option<+T> = None | Some(value: T)
}
