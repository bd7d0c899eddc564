/** The machine integers the sources compute with, as ranges of `int`, and the
    unsigned wrap-around the C expressions perform. */
module Words {
  type u8 = x: int | 0 <= x < 0x100
  type u16 = x: int | 0 <= x < 0x1_0000
  type u32 = x: int | 0 <= x < 0x1_0000_0000

  /** x modulo 2^16 (the first branch spares the verifier the division). */
  function Wrap16(x: int): u16 { if 0 <= x < 0x1_0000 then x else x % 0x1_0000 }

  /** x modulo 2^32. */
  function Wrap32(x: int): u32 { if 0 <= x < 0x1_0000_0000 then x else x % 0x1_0000_0000 }

  function Min(a: int, b: int): int { if a < b then a else b }

  datatype Option<+T> = None | Some(value: T)
}
