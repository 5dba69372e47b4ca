/** The optional value used where the Java code uses null. */
module Wrappers {

  datatype Option<+T> = None | Some(value: T)
}
