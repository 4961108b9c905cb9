/** The fixed-width integers of the firmware, as ranges of int: wrap-around is
    always written out where a C expression relies on it. */
module MachineWords {
  type u8 = x: int | 0 <= x < 0x100
  type u16 = x: int | 0 <= x < 0x1_0000
  type u32 = x: int | 0 <= x < 0x1_0000_0000
  type i32 = x: int | -0x8000_0000 <= x < 0x8000_0000
  type i64 = x: int | -0x8000_0000_0000_0000 <= x < 0x8000_0000_0000_0000

  const U16: int := 0x1_0000
  const U32: int := 0x1_0000_0000

  /** uint32_t arithmetic. */
  function Wrap32(x: int): u32 {
    x % 0x1_0000_0000
  }

  /** Reinterpreting a uint32_t as int32_t. */
  function Signed32(x: u32): i32 {
    if x < 0x8000_0000 then x else x - 0x1_0000_0000
  }

  /** C's division, which truncates toward zero. */
  function TruncDiv(a: int, b: int): int
    requires b > 0
  {
    if a >= 0 then a / b else -((-a) / b)
  }

  /** A quotient is known by its remainder's range. */
  lemma Quotient(n: int, d: int, q: int)
    requires d > 0 && q * d <= n < q * d + d
    ensures n / d == q
  {
    var r := n / d;
    assert r * d <= n < r * d + d;
    Multiples(r + 1, q, d);
    Multiples(q + 1, r, d);
  }

  lemma Multiples(a: int, b: int, c: int)
    ensures a <= b && c > 0 ==> a * c <= b * c
  {
  }
}
