/** Comparing timestamps that live in different timebases (avt_compare_ts). */
module TimestampOrder {
  import opened FixedWidth
  import opened Products
  import opened Bits
  import opened Rounding

  datatype Rational = Rational(num: int, den: int)

  predicate PositiveTimebase(tb: Rational) {
    1 <= tb.num <= INT_MAX && 1 <= tb.den <= INT_MAX
  }

  predicate Timestamp(ts: int) { INT64_MIN < ts <= INT64_MAX }

  function CompareTs(tsA: int, tbA: Rational, tsB: int, tbB: Rational): int {
    var a := tbA.num * tbB.den;
    var b := tbB.num * tbA.den;
    if Or(Or(Or(Abs(tsA), a), Abs(tsB)), b) <= INT_MAX then
      (if ToInt64(tsA * a) > ToInt64(tsB * b) then 1 else 0) - (if ToInt64(tsA * a) < ToInt64(tsB * b) then 1 else 0)
    else if RescaleRnd(tsA, a, b, ROUND_DOWN) < tsB then
      -1
    else if RescaleRnd(tsB, b, a, ROUND_DOWN) < tsA then
      1
    else
      0
  }

  /** The fast path is taken exactly when all four magnitudes fit an `int`, so that the products fit 64 bits. */
  lemma FastPathFits(w: nat, x: nat, y: nat, z: nat)
    ensures Or(Or(Or(w, x), y), z) <= INT_MAX <==> w <= INT_MAX && x <= INT_MAX && y <= INT_MAX && z <= INT_MAX
  {
    hide Or, Pow2;
    WordSizes();
    OrBelow(w, x, 31);
    OrBelow(Or(w, x), y, 31);
    OrBelow(Or(Or(w, x), y), z, 31);
  }

  function Sign(x: int): int { if x > 0 then 1 else if x < 0 then -1 else 0 }

  /** tsA * tbA - tsB * tbB, brought over the positive common denominator tbA.den * tbB.den. */
  function Difference(tsA: int, tbA: Rational, tsB: int, tbB: Rational): int {
    tsA * tbA.num * tbB.den - tsB * tbB.num * tbA.den
  }

  lemma FloorBelow(q: int, n: int, d: int, t: int)
    requires d > 0 && IsFloor(q, n, d)
    ensures q < t <==> n < t * d
  {
    if q < t {
      MultiplesOrdered(q, t, d);
    } else if t < q {
      MultiplesOrdered(t, q, d);
    }
  }

  lemma ProductFits(t: int, x: int)
    requires Abs(t) <= INT_MAX && 0 <= x <= INT_MAX
    ensures ToInt64(t * x) == t * x
  {
    ProductsOrdered(Abs(t), x, INT_MAX, INT_MAX);
    ProductSign(Abs(t), x);
    assert t * x == Abs(t) * x || t * x == -(Abs(t) * x);
    ToInt64Keeps(t * x);
  }

  /** Both the fast and the slow path return the sign of the exact difference. */
  lemma CompareIsExact(tsA: int, tbA: Rational, tsB: int, tbB: Rational)
    requires Timestamp(tsA) && Timestamp(tsB) && PositiveTimebase(tbA) && PositiveTimebase(tbB)
    ensures CompareTs(tsA, tbA, tsB, tbB) == Sign(Difference(tsA, tbA, tsB, tbB))
  {
    hide Or;
    var a := tbA.num * tbB.den;
    var b := tbB.num * tbA.den;
    assert a > 0 && b > 0;
    FastPathFits(Abs(tsA), a, Abs(tsB), b);
    if Abs(tsA) <= INT_MAX && a <= INT_MAX && Abs(tsB) <= INT_MAX && b <= INT_MAX {
      ProductFits(tsA, a);
      ProductFits(tsB, b);
    }
    hide ToInt64;
    assert Difference(tsA, tbA, tsB, tbB) == tsA * a - tsB * b by {
      assert tsA * tbA.num * tbB.den == tsA * a;
      assert tsB * tbB.num * tbA.den == tsB * b;
    }
    RescaleIsExact(tsA, a, b, ROUND_DOWN);
    RescaleIsExact(tsB, b, a, ROUND_DOWN);
    FloorBelow(RescaleRnd(tsA, a, b, ROUND_DOWN), tsA * a, b, tsB);
    FloorBelow(RescaleRnd(tsB, b, a, ROUND_DOWN), tsB * b, a, tsA);
  }

  /** Swapping the operands flips the answer. */
  lemma CompareAntisymmetric(tsA: int, tbA: Rational, tsB: int, tbB: Rational)
    requires Timestamp(tsA) && Timestamp(tsB) && PositiveTimebase(tbA) && PositiveTimebase(tbB)
    ensures CompareTs(tsB, tbB, tsA, tbA) == -CompareTs(tsA, tbA, tsB, tbB)
  {
    CompareIsExact(tsA, tbA, tsB, tbB);
    CompareIsExact(tsB, tbB, tsA, tbA);
  }

  lemma SignScales(x: int, k: int)
    requires k > 0
    ensures Sign(x * k) == Sign(x)
  {
    if x > 0 { assert x * k > 0; }
    if x < 0 { assert (-x) * k > 0; assert x * k == -((-x) * k); }
  }

  lemma DifferencesAdd(a: int, aN: int, aD: int, b: int, bN: int, bD: int, c: int, cN: int, cD: int)
    ensures (a * aN * cD - c * cN * aD) * bD == (a * aN * bD - b * bN * aD) * cD + (b * bN * cD - c * cN * bD) * aD
  {
    var x, y, z := a * aN, b * bN, c * cN;
    assert (x * cD - z * aD) * bD == x * cD * bD - z * aD * bD;
    assert (x * bD - y * aD) * cD == x * bD * cD - y * aD * cD;
    assert (y * cD - z * bD) * aD == y * cD * aD - z * bD * aD;
    assert x * cD * bD == x * bD * cD && z * aD * bD == z * bD * aD && y * aD * cD == y * cD * aD;
  }

  /** Transitivity across three different timebases: "not after" composes, strictly if either step is strict. */
  lemma CompareTransitive(tsA: int, tbA: Rational, tsB: int, tbB: Rational, tsC: int, tbC: Rational)
    requires Timestamp(tsA) && Timestamp(tsB) && Timestamp(tsC)
    requires PositiveTimebase(tbA) && PositiveTimebase(tbB) && PositiveTimebase(tbC)
    requires CompareTs(tsA, tbA, tsB, tbB) <= 0 && CompareTs(tsB, tbB, tsC, tbC) <= 0
    ensures CompareTs(tsA, tbA, tsC, tbC) == Min(CompareTs(tsA, tbA, tsB, tbB), CompareTs(tsB, tbB, tsC, tbC))
  {
    CompareIsExact(tsA, tbA, tsB, tbB);
    CompareIsExact(tsB, tbB, tsC, tbC);
    CompareIsExact(tsA, tbA, tsC, tbC);
    var ab, bc, ac := Difference(tsA, tbA, tsB, tbB), Difference(tsB, tbB, tsC, tbC), Difference(tsA, tbA, tsC, tbC);
    DifferencesAdd(tsA, tbA.num, tbA.den, tsB, tbB.num, tbB.den, tsC, tbC.num, tbC.den);
    assert ac * tbB.den == ab * tbC.den + bc * tbA.den;
    SignScales(ab, tbC.den);
    SignScales(bc, tbA.den);
    SignScales(ac, tbB.den);
  }
}
