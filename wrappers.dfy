/** The optional value used for reads that may fail and for dictionary lookups. */
module Wrappers {

  datatype Option<+T> = None | Some(value: T)
}
