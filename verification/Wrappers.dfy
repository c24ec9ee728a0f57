/** Result types and machine-integer ranges shared by the modules of the model. */
module Wrappers {

  datatype Option<+T> = None | Some(value: T)

  /** A returned value, or the condition under which the source throws. */
  datatype Result<+T, +E> = Ok(value: T) | Err(error: E)

  type uint8 = x: int | 0 <= x < 0x100

  type uint16 = x: int | 0 <= x < 0x1_0000
}
