/** Fixed-width integer ranges of the implementation language, and the
    Option/Result wrappers every fallible operation returns. */
module Ints {
  type i8 = x: int | -0x80 <= x < 0x80
  type u8 = x: int | 0 <= x < 0x100
  type i16 = x: int | -0x8000 <= x < 0x8000
  type u16 = x: int | 0 <= x < 0x1_0000
  type i32 = x: int | -0x8000_0000 <= x < 0x8000_0000
  type u32 = x: int | 0 <= x < 0x1_0000_0000
  type i64 = x: int | -0x8000_0000_0000_0000 <= x < 0x8000_0000_0000_0000
  type u64 = x: int | 0 <= x < 0x1_0000_0000_0000_0000

  const I32_MIN: int := -0x8000_0000
  const I32_MAX: int := 0x7FFF_FFFF

  /** The remainder of Rust's `%` on signed integers: it truncates toward
      zero, so it takes the sign of the dividend (Dafny's `%` never is negative). */
  function TruncRem(a: int, b: int): (r: int)
    requires b > 0
    ensures -b < r < b
    ensures a >= 0 ==> r >= 0
    ensures a < 0 ==> r <= 0
  {
    if a >= 0 then a % b else -((-a) % b)
  }

  /** The truncating remainder by 7 is congruent to the dividend, 7 apart
      from the Euclidean one when it is negative. */
  lemma TruncRem7Congruent(a: int)
    ensures TruncRem(a, 7) == a % 7 || TruncRem(a, 7) == a % 7 - 7
    ensures (TruncRem(a, 7) + 7) % 7 == a % 7
  {
    if a < 0 {
      var q := (-a) / 7;
      var r := (-a) % 7;
      assert -a == 7 * q + r;
      if r == 0 {
        assert a == 7 * (-q);
      } else {
        assert a == 7 * (-q - 1) + (7 - r);
      }
    }
  }

  /** Scaling by a positive factor keeps a strict order. */
  lemma MulStrictlyBelow(v: int, p: int, q: int)
    requires 0 <= v < p && q > 0
    ensures v * q < p * q
  {
    assert p * q - v * q == (p - v) * q;
  }
}

module Wrappers {
  datatype Option<T> = None | Some(value: T)

  datatype Result<T, E> = Ok(value: T) | Err(error: E)
}
