/** Machine integers, which wrap around where the model says so, and values that may be absent. */
module Machine {
  const TWO_64: int := 0x1_0000_0000_0000_0000
  const TWO_32: int := 0x1_0000_0000

  type U64 = x: int | 0 <= x < 0x1_0000_0000_0000_0000
  type U32 = x: int | 0 <= x < 0x1_0000_0000

  datatype Option<T> = None | Some(value: T)

  const MAX_U64: U64 := 0xffff_ffff_ffff_ffff
}
