/** The conventional Some/None datatype, used for keys a record may lack. */
module Wrappers {

  datatype Option<+T> = None | Some(value: T)
}
