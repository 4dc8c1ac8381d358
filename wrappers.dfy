/** Optional values: `None` stands for a missing cell (pandas NaN). */
module Wrappers {

  datatype Option<+T> = None | Some(value: T)
}
