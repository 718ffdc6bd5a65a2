/** Optional values, used where a lookup in the dashboard can find nothing. */
module Wrappers {

  datatype Option<T> = None | Some(value: T)

}
