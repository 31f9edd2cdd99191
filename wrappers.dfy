/** The optional value used wherever the source returns a nullable pointer,
    an `Option`, or returns early without a value. */
module Wrappers {

  datatype Option<+T> = None | Some(value: T)
}
