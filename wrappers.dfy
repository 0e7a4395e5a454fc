/** Optional values, used wherever the PHP code works with `null`, `false` or a failed match. */
module Wrappers {
  datatype Option<+T> = None | Some(value: T)
}
