/** Basic types shared by the whole model: optional values (C# nullable
    references and `int?`), the 32-bit integers the entities store and the
    unchecked arithmetic C# applies to them. */
module Common {

  /** A C# nullable value: `None` stands for `null`. */
  datatype Option<+T> = None | Some(value: T)

  const MinInt32: int := -0x8000_0000
  const MaxInt32: int := 0x7fff_ffff

  /** C# `int`. */
  newtype Int32 = x: int | -0x8000_0000 <= x < 0x8000_0000

  /** The value C# gives to `x` in an unchecked context: `x` reduced
      modulo 2^32 into the range of `int`. */
  function Wrap32(x: int): (r: Int32)
    ensures MinInt32 <= x <= MaxInt32 ==> r as int == x
    ensures (r as int - x) % 0x1_0000_0000 == 0
  {
    ((x + 0x8000_0000) % 0x1_0000_0000 - 0x8000_0000) as Int32
  }

  /** C# `a - b` on two `int`s (the project does not enable overflow checks). */
  function Sub32(a: Int32, b: Int32): (r: Int32)
    ensures MinInt32 <= a as int - b as int <= MaxInt32 ==> r as int == a as int - b as int
  {
    Wrap32(a as int - b as int)
  }

  /** Subtracting a non-negative amount from a value at least as large never
      wraps: the result is exact and non-negative. */
  lemma SubNoWrap(a: Int32, b: Int32)
    requires 0 <= b <= a
    ensures Sub32(a, b) as int == a as int - b as int >= 0
  {
  }

  /** Subtracting a negative amount can wrap: int.MaxValue - (-1) is int.MinValue. */
  lemma SubWrapsOnNegative()
    ensures Sub32(MaxInt32 as Int32, -1) as int == MinInt32
  {
    assert (MaxInt32 + 1 + 0x8000_0000) % 0x1_0000_0000 == 0;
  }
}
