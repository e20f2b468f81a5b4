// Results that may be missing, and calls that may stop the program.

module Wrappers {

  datatype Option<T> = None | Some(value: T)

  // The kernel's panic and the image builder's bug do not return.
  datatype Result<T> = Ok(value: T) | Halt
}
