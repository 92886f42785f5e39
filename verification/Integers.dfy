/** The integer widths of the source, and its division. */
module Integers {
  type u16 = x: int | 0 <= x < 0x1_0000
  type i16 = x: int | -0x8000 <= x < 0x8000
  type u32 = x: int | 0 <= x < 0x1_0000_0000
  type i32 = x: int | -0x8000_0000 <= x < 0x8000_0000

  function Max(a: int, b: int): int { if a < b then b else a }

  function Min(a: int, b: int): int { if a < b then a else b }

  function Absolute(n: int): nat { if n < 0 then -n else n }

  function Bit(b: bool): nat { if b then 1 else 0 }

  /** Division that truncates toward zero. */
  function TruncDiv(a: int, b: int): int
    requires b > 0
  {
    if a < 0 then -((-a) / b) else a / b
  }

  function TruncRem(a: int, b: int): int
    requires b > 0
  {
    a - TruncDiv(a, b) * b
  }
}
