/** The optional value that `java.util.Optional` carries in the service layer. */
module Wrappers {

  datatype Option<+T> = None | Some(value: T)
}
