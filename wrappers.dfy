/** Optional values: a blank die face, and a computation that can fail. */
module Wrappers {

  datatype Option<+T> = None | Some(value: T)

}
