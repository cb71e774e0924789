/** The fixed-width integers of the C sources, and the conversions between them. */
module FixedWidth {
  const INT_MAX: int := 0x7FFF_FFFF
  const UINT32_MAX: int := 0xFFFF_FFFF
  const INT64_MAX: int := 0x7FFF_FFFF_FFFF_FFFF
  const INT64_MIN: int := -0x8000_0000_0000_0000
  const TWO_TO_32: int := 0x1_0000_0000
  const TWO_TO_64: int := 0x1_0000_0000_0000_0000
  const INT128_MAX: int := 0x7FFF_FFFF_FFFF_FFFF_FFFF_FFFF_FFFF_FFFF

  // The errno values behind AVT_ERROR.
  const EAGAIN := 11
  const EBUSY := 16
  const EINVAL := 22

  newtype Byte = x: int | 0 <= x < 256

  type Bytes = seq<Byte>

  predicate IsInt(x: int) { -INT_MAX - 1 <= x <= INT_MAX }

  predicate IsInt64(x: int) { INT64_MIN <= x <= INT64_MAX }

  /** Unsigned 64-bit arithmetic wraps around. */
  function Wrap64(x: int): int { x % TWO_TO_64 }

  function Wrap32(x: int): int { x % TWO_TO_32 }

  lemma Wrap32Adds(x: int, y: int)
    ensures Wrap32(Wrap32(x) + Wrap32(y)) == Wrap32(x + y)
    ensures Wrap32(x + Wrap32(y)) == Wrap32(x + y)
  {
  }

  lemma Wrap64Adds(x: int, y: int)
    ensures Wrap64(Wrap64(x) + y) == Wrap64(x + y)
  {
  }

  /** Narrowing to `int64_t`: the low 64 bits read as a two's complement number. */
  function ToInt64(x: int): int {
    var low := x % TWO_TO_64;
    if low > INT64_MAX then low - TWO_TO_64 else low
  }

  lemma ToInt64Keeps(x: int)
    requires IsInt64(x)
    ensures ToInt64(x) == x
  {
    if x < 0 {
      assert x % TWO_TO_64 == x + TWO_TO_64;
    } else {
      assert x % TWO_TO_64 == x;
    }
  }

  /** Narrowing to `int`: the low 32 bits read as a two's complement number. */
  function ToInt(x: int): int {
    var low := x % TWO_TO_32;
    if low > INT_MAX then low - TWO_TO_32 else low
  }

  lemma ToIntFits(x: int)
    ensures IsInt(ToInt(x)) && (IsInt(x) ==> ToInt(x) == x)
  {
    if IsInt(x) && x < 0 {
      assert x % TWO_TO_32 == x + TWO_TO_32;
    }
  }

  function Abs(x: int): nat { if x < 0 then -x else x }

  function Min(x: int, y: int): int { if x <= y then x else y }

  function Max(x: int, y: int): int { if x >= y then x else y }
}
