/** Optional values, used where the Python code tests a value for presence. */
module Wrappers {

  datatype Option<+T> = None | Some(value: T)
}
