/** Types and machine word sizes that several components share. */
module Basics {

  type byte = x: int | 0 <= x < 256

  const WORD32 := 0x1_0000_0000
  const WORD64 := 0x1_0000_0000_0000_0000

  datatype Option<+T> = None | Some(value: T)
}
