/** Optional values: the model of Python's `None` next to a page number. */
module Wrappers {

  datatype Option<+T> = None | Some(value: T)
}
