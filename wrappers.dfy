/** The optional value used throughout the model for "no match" and "no email". */
module Wrappers {

  datatype Option<+T> = None | Some(value: T)

}
