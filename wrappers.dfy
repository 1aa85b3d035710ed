/** A value or no value: the result of a scan or a search that may find nothing. */
module Wrappers {

  datatype Option<+T> = None | Some(value: T)

}
