/** Optional values: an absent result stands for a Python exception (an IndexError). */
module Wrappers {

  datatype Option<+T> = None | Some(value: T)
}
