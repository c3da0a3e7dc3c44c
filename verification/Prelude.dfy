/** Types shared by every module: optional values, results, and Go's fixed-width numbers. */
module Prelude {

  datatype Option<+T> = None | Some(value: T)

  datatype Result<+T, +E> = Ok(value: T) | Err(error: E)

  const TWO_TO_THE_63: int := 0x8000_0000_0000_0000
  const TWO_TO_THE_64: int := 0x1_0000_0000_0000_0000

  type Byte = b: int | 0 <= b < 256

  type Int64 = n: int | -TWO_TO_THE_63 <= n < TWO_TO_THE_63

  type UInt64 = n: int | 0 <= n < TWO_TO_THE_64
}
