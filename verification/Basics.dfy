/** Types shared by the models. */
module Basics {

  type byte = x: int | 0 <= x < 256

  type u32 = x: int | 0 <= x < 0x1_0000_0000

  datatype Option<T> = None | Some(value: T)

  /** One past the largest `int`. */
  const INT_LIMIT := 0x8000_0000

  /** One past the largest 32-bit number. */
  const WORD := 0x1_0000_0000

  const PAGE := 4096
}
