/** The optional value used for absent storage entries and thrown errors. */
module Wrappers {

  datatype Option<+T> = None | Some(value: T)
}
