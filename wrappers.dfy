/** Optional values: a missing cell (NaN in the data frame) is `None`. */
module Wrappers {

  datatype Option<+T> = None | Some(value: T)

}
