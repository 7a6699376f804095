/** Optional values: a parsed priority that may be missing, a label lookup that may
    fail, a table that pandas would refuse to build. */
module Wrappers {

  datatype Option<+T> = None | Some(value: T)
}
