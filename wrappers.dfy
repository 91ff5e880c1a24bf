/** Optional values: a resolved symbol that may be absent, a semantic model that may be missing. */
module Wrappers {

  datatype Option<+T> = None | Some(value: T)
}
