/** The optional value used for the nullable fields of an exported message. */
module Wrappers {

  datatype Option<+T> = None | Some(value: T)

}
