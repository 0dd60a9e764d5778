/** Byte strings and the small wrappers used by every module. */
module Base {

  newtype byte = x: int | 0 <= x < 256

  type bytes = seq<byte>

  datatype Option<+T> = None | Some(value: T)

  datatype Result<+T, +E> = Ok(value: T) | Err(error: E)

  /** A Go slice or buffer length: always representable as a signed 64-bit int. */
  const INT_LIMIT: nat := 0x8000_0000_0000_0000

  const UINT64_LIMIT: nat := 0x1_0000_0000_0000_0000

  function Max(x: int, y: int): int { if x >= y then x else y }

  function Min(x: int, y: int): int { if x <= y then x else y }
}
