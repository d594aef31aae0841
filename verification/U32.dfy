/** The C integer types the modelled sources rely on: bytes, and 32-bit unsigned
    integers with wrap-around, together with the signed "cyclic" difference that
    timers and sequence numbers are compared with. */
module U32 {
  const M: int := 0x1_0000_0000
  const HALF: int := 0x8000_0000

  type u32 = x: int | 0 <= x < 0x1_0000_0000
  type byte = x: int | 0 <= x < 256

  /** Conversion of any integer to a 32-bit unsigned one. */
  function Wrap(x: int): u32 { x % M }

  /** 32-bit unsigned addition. */
  function Add(a: u32, b: u32): u32 { if a + b < M then a + b else a + b - M }

  /** 32-bit unsigned subtraction. */
  function Sub(a: u32, b: u32): u32 { if a >= b then a - b else a - b + M }

  /** The signed reading of the 32-bit difference: (int32_t)(later - earlier). */
  function Diff(later: u32, earlier: u32): int
  {
    var d := Sub(later, earlier);
    if d < HALF then d else d - M
  }

  function Min(a: int, b: int): int { if a <= b then a else b }

  function Max(a: int, b: int): int { if a >= b then a else b }

  /** C division of signed integers, which truncates toward zero. */
  function TruncDiv(a: int, b: int): int
    requires b > 0
  {
    if a >= 0 then a / b else -((-a) / b)
  }

  /** Conversion of any integer to a 32-bit signed one. */
  function Signed(x: int): (r: int)
    ensures -HALF <= r < HALF
    ensures -HALF <= x < HALF ==> r == x
  {
    var m := x % M;
    if m < HALF then m else m - M
  }
}
