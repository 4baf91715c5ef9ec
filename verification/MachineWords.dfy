/** Fixed-width machine integers, written as ranges of `int` so that every
    wrap-around in the model is an explicit `%`. */
module MachineWords {
  const TWO16: int := 0x1_0000
  const TWO31: int := 0x8000_0000
  const TWO32: int := 0x1_0000_0000
  const TWO63: int := 0x8000_0000_0000_0000
  const TWO64: int := 0x1_0000_0000_0000_0000

  type u8 = x: int | 0 <= x < 0x100
  type u16 = x: int | 0 <= x < 0x1_0000
  type u32 = x: int | 0 <= x < 0x1_0000_0000
  type u64 = x: int | 0 <= x < 0x1_0000_0000_0000_0000
  type i32 = x: int | -0x8000_0000 <= x < 0x8000_0000
  type i64 = x: int | -0x8000_0000_0000_0000 <= x < 0x8000_0000_0000_0000

  /** Addition of unsigned 32-bit words. */
  function Add32(x: int, y: int): u32 {
    (x + y) % TWO32
  }

  /** Multiplication of unsigned 32-bit words. */
  function Mul32(x: int, y: int): u32 {
    x * y % TWO32
  }

  lemma Add32Exact(x: int, y: int)
    requires 0 <= x + y < TWO32
    ensures Add32(x, y) == x + y
  {
  }

  /** The product as C has it: what is left of it in 32 bits, which is all if it fits. */
  lemma Mul32Is(x: u32, y: u32)
    ensures Mul32(x, y) == x * y - x * y / 0x1_0000_0000 * 0x1_0000_0000
    ensures 0 <= x * y && (x * y < 0x1_0000_0000 ==> Mul32(x, y) == x * y)
  {
  }

  lemma OneTimes(x: u32)
    ensures Mul32(x, 1) == x
  {
  }

  /** A 32-bit word read as a signed one. */
  function Signed32(x: u32): i32 {
    if x < TWO31 then x else x - TWO32
  }

  lemma Signed32Back(x: u32)
    ensures Signed32(x) % TWO32 == x
  {
  }

  lemma AddNothing(x: u32)
    ensures Add32(x, 0) == x
  {
  }

  lemma AddTwice(x: int, y: int, z: int)
    ensures Add32(Add32(x, y), z) == Add32(x, y + z)
  {
  }

  function Min(x: int, y: int): (r: int)
    ensures r <= x && r <= y && (r == x || r == y)
  {
    if x < y then x else y
  }

  function Max(x: int, y: int): (r: int)
    ensures r >= x && r >= y && (r == x || r == y)
  {
    if x > y then x else y
  }
}
