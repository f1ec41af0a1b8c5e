/** Machine limits and small helpers shared by the models. */
module Common {

  /** One more than the largest 32-bit unsigned value. */
  const SIZE_LIMIT: int := 0x1_0000_0000

  /** One more than the largest 32-bit `int`. */
  const INT_LIMIT: int := 0x8000_0000

  datatype Option<+T> = None | Some(value: T)

  function Min(x: int, y: int): int {
    if x < y then x else y
  }

  function Max(x: int, y: int): int {
    if x > y then x else y
  }
}
