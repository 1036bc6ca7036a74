/** An optional value, for lookups the page may fail to make. */
module Wrappers {

  datatype Option<+T> = None | Some(value: T)
}
