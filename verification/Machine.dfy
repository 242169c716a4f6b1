/** Machine words. */
module Machine {
  const U64_LIMIT: int := 0x1_0000_0000_0000_0000
  const U64_MAX: u64 := 0xFFFF_FFFF_FFFF_FFFF
  const U32_MAX: u32 := 0xFFFF_FFFF
  const U16_MAX: u16 := 0xFFFF

  type u64 = x: int | 0 <= x < 0x1_0000_0000_0000_0000
  type u32 = x: int | 0 <= x < 0x1_0000_0000
  type u16 = x: int | 0 <= x < 0x1_0000

  /** Addition with wrap-around. */
  function Add64(a: int, b: int): u64 {
    (a + b) % U64_LIMIT
  }
}
