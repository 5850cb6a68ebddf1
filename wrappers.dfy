/** Outcomes of operations that can fail; a `panic!` of the emulator is an `Err` here. */
module Wrappers {

  datatype Option<+T> = None | Some(value: T)

  datatype Result<+T, +E> = Ok(value: T) | Err(error: E)
}
