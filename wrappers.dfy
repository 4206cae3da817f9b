/** Optional values, used where the page code tests a DOM lookup or an attribute for presence. */
module Wrappers {
  datatype Option<+T> = None | Some(value: T)
}
