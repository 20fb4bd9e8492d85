/** Types and constants that several components share. */
module Basics {

  datatype Option<+T> = None | Some(value: T)

  type Byte = x: int | 0 <= x < 256

  const NUL: char := '\0'    // ends a C string
}
