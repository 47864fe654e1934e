/** Failure-compatible optional value, standing in for the kernel's null handles. */
module Wrappers {

  datatype Option<+T> = None | Some(value: T)
}
