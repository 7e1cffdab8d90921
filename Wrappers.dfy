/** Option stands for a Java reference that may be null (a missing vehicle,
    a missing ticket) and for java.util.Optional. */
module Wrappers {

  datatype Option<+T> = None | Some(value: T)
}
