/** Small shared vocabulary: optional values, bytes, Go's int64, and Min. */
module Common {

  datatype Option<+T> = None | Some(value: T)

  /** One byte of file content. */
  newtype byte = x: int | 0 <= x < 256

  /** Go's signed 64-bit integer. */
  newtype int64 = x: int | -0x8000_0000_0000_0000 <= x < 0x8000_0000_0000_0000

  function Min(a: int, b: int): int
  {
    if a <= b then a else b
  }
}
