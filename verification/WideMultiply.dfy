/** XXH_mult64to128: the portable 64 x 64 -> 128 bit multiplication. */
module WideMultiply {
  import opened FixedWidth
  import opened Products
  import opened Bits

  function Low(x: int): int { x % TWO_TO_32 }

  function High(x: int): int { x / TWO_TO_32 }

  /** XXH_mult32to64 */
  function Mult32To64(x: int, y: int): int { Wrap64(x * y) }

  // The two sums, wrapping at 64 bits like the source's.

  function Cross(loLo: int, hiLo: int, loHi: int): int { Wrap64(Wrap64(High(loLo) + Low(hiLo)) + loHi) }

  function Upper(hiLo: int, cross: int, hiHi: int): int { Wrap64(Wrap64(High(hiLo) + High(cross)) + hiHi) }

  /** The high and the low half of the product. */
  function Mult64To128(lhs: int, rhs: int): (int, int) {
    var loLo := Mult32To64(Low(lhs), Low(rhs));
    var hiLo := Mult32To64(High(lhs), Low(rhs));
    var loHi := Mult32To64(Low(lhs), High(rhs));
    var hiHi := Mult32To64(High(lhs), High(rhs));
    var cross := Cross(loLo, hiLo, loHi);
    (Upper(hiLo, cross, hiHi), Or(Wrap64(cross * TWO_TO_32), Low(loLo)))
  }

  /** The OR that joins the two halves adds them. */
  lemma HalvesJoin(cross: int, loLo: int)
    ensures Or(Wrap64(cross * TWO_TO_32), Low(loLo)) == Low(cross) * TWO_TO_32 + Low(loLo)
  {
    hide Or, Pow2;
    WordSizes();
    ShiftKeepsLow(cross);
    OrDisjoint(Low(cross), Low(loLo), 32);
  }

  lemma ShiftKeepsLow(cross: int)
    ensures Wrap64(cross * TWO_TO_32) == Low(cross) * TWO_TO_32
  {
  }

  predicate IsHalf(x: int) { 0 <= x < TWO_TO_32 }

  const MAX_HALF_PRODUCT: int := (TWO_TO_32 - 1) * (TWO_TO_32 - 1)

  lemma HalfProduct(x: int, y: int)
    requires IsHalf(x) && IsHalf(y)
    ensures 0 <= x * y <= MAX_HALF_PRODUCT && Mult32To64(x, y) == x * y
  {
    ProductSign(x, y);
    ProductsOrdered(x, y, TWO_TO_32 - 1, TWO_TO_32 - 1);
  }

  /** Neither sum ever reaches 2^64. */
  lemma SumsNeverOverflow(loLo: int, hiLo: int, loHi: int, hiHi: int)
    requires 0 <= loLo <= MAX_HALF_PRODUCT && 0 <= hiLo <= MAX_HALF_PRODUCT
    requires 0 <= loHi <= MAX_HALF_PRODUCT && 0 <= hiHi <= MAX_HALF_PRODUCT
    ensures var cross := High(loLo) + Low(hiLo) + loHi;
      && 0 <= cross < TWO_TO_64 && Cross(loLo, hiLo, loHi) == cross
      && 0 <= High(hiLo) + High(cross) + hiHi < TWO_TO_64
      && Upper(hiLo, cross, hiHi) == High(hiLo) + High(cross) + hiHi
  {
    hide High, Low, Wrap64;
    Halves(loLo);
    Halves(hiLo);
    SumFits(High(loLo), Low(hiLo), loHi);
    var cross := High(loLo) + Low(hiLo) + loHi;
    Halves(cross);
    SumFits(High(hiLo), High(cross), hiHi);
  }

  lemma Halves(x: int)
    requires 0 <= x < TWO_TO_64
    ensures IsHalf(High(x)) && IsHalf(Low(x)) && x == High(x) * TWO_TO_32 + Low(x)
  {
  }

  lemma SumFits(x: int, y: int, z: int)
    requires IsHalf(x) && IsHalf(y) && 0 <= z <= MAX_HALF_PRODUCT
    ensures 0 <= x + y + z < TWO_TO_64 && Wrap64(Wrap64(x + y) + z) == x + y + z
  {
  }

  /** Schoolbook multiplication in base 2^32. */
  lemma Schoolbook(a: int, b: int, c: int, d: int)
    ensures (a * TWO_TO_32 + b) * (c * TWO_TO_32 + d)
         == a * c * TWO_TO_64 + (a * d + b * c) * TWO_TO_32 + b * d
  {
    var x, y := a * TWO_TO_32 + b, c * TWO_TO_32 + d;
    Distribute(x, c * TWO_TO_32, d);
    Distribute(c * TWO_TO_32, a * TWO_TO_32, b);
    Distribute(d, a * TWO_TO_32, b);
    assert (a * TWO_TO_32) * (c * TWO_TO_32) == a * c * TWO_TO_64 by { BaseOut(a, c); }
    assert b * (c * TWO_TO_32) == b * c * TWO_TO_32 by { Associate(b, c, TWO_TO_32); }
    assert (a * TWO_TO_32) * d == a * d * TWO_TO_32 by { Associate(a, TWO_TO_32, d); Associate(a, d, TWO_TO_32); }
  }

  lemma BaseOut(a: int, c: int)
    ensures (a * TWO_TO_32) * (c * TWO_TO_32) == a * c * TWO_TO_64
  {
    Associate(a, TWO_TO_32, c * TWO_TO_32);
    Associate(a, c, TWO_TO_64);
  }

  /** For all 64-bit factors the two halves make up the exact product. */
  lemma MultiplyIsExact(lhs: int, rhs: int)
    requires 0 <= lhs < TWO_TO_64 && 0 <= rhs < TWO_TO_64
    ensures var r := Mult64To128(lhs, rhs);
      r.0 * TWO_TO_64 + r.1 == lhs * rhs && 0 <= r.0 < TWO_TO_64 && 0 <= r.1 < TWO_TO_64
  {
    hide Or, Cross, Upper, Wrap64, Low, High, Mult32To64;
    Halves(lhs);
    Halves(rhs);
    var a, b, c, d := High(lhs), Low(lhs), High(rhs), Low(rhs);
    HalfProduct(b, d);
    HalfProduct(a, d);
    HalfProduct(b, c);
    HalfProduct(a, c);
    SumsNeverOverflow(b * d, a * d, b * c, a * c);
    Schoolbook(a, b, c, d);
    Recombine(b * d, a * d, b * c, a * c);
    HalvesJoin(High(b * d) + Low(a * d) + b * c, b * d);
    Halves(b * d);
    Halves(High(b * d) + Low(a * d) + b * c);
  }

  lemma Recombine(loLo: int, hiLo: int, loHi: int, hiHi: int)
    ensures var cross := High(loLo) + Low(hiLo) + loHi;
      (High(hiLo) + High(cross) + hiHi) * TWO_TO_64 + (Low(cross) * TWO_TO_32 + Low(loLo))
        == hiHi * TWO_TO_64 + (hiLo + loHi) * TWO_TO_32 + loLo
  {
  }
}
