/** The optional value used for map lookups and the error text of a response. */
module Wrappers {

  datatype Option<+T> = None | Some(value: T)

}
