/** The nullable results of the store's reads. */
module Wrappers {

  datatype Option<+T> = None | Some(value: T)
}
