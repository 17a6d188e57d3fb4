/** Optional values, for Python's `None` results and for decoders that may raise. */
module Wrappers {

  datatype Option<+T> = None | Some(value: T)
}
