/** Optional values, standing for the source's `number | null` and `number | undefined`. */
module Wrappers {

  datatype Option<T> = None | Some(value: T)
}
