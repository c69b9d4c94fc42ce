/** Optional values: `None` stands for Go's nil result or a failed conversion. */
module Wrappers {

  datatype Option<+T> = None | Some(value: T)
}
