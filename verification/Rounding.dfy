/** The rescaling primitive of rational.c: a * b / c in 128 bits, with five rounding modes. */
module Rounding {
  import opened FixedWidth
  import opened Products

  // enum AVTRoundingMode
  type Mode = bv32
  const ROUND_ZERO: Mode := 0
  const ROUND_INF: Mode := 1
  const ROUND_DOWN: Mode := 2
  const ROUND_UP: Mode := 3
  const ROUND_NEAR_INF: Mode := 5

  predicate ValidMode(rnd: Mode) { rnd <= 5 && rnd != 4 }

  /** The bit trick that exchanges "down" and "up" and fixes the symmetric modes. */
  function Mirror(rnd: Mode): Mode { rnd ^ ((rnd >> 1) & 1) }

  function RescaleRnd(a: int, b: int, c: int, rnd: Mode): int
    decreases a < 0
  {
    if c <= 0 || b < 0 || !ValidMode(rnd) then
      INT64_MIN
    else if a < 0 then
      -RescaleRnd(-Max(a, -INT64_MAX), b, c, Mirror(rnd))
    else
      var r := if rnd == ROUND_NEAR_INF then c / 2 else if rnd & 1 == 1 then c - 1 else 0;
      (a * b + r) / c
  }

  // What it means for q to be n/d rounded in a mode, said without dividing.

  ghost predicate IsFloor(q: int, n: int, d: int) { q * d <= n < q * d + d }

  ghost predicate IsCeiling(q: int, n: int, d: int) { q * d - d < n <= q * d }

  ghost predicate IsNearest(q: int, n: int, d: int) {
    if n >= 0 then 2 * n - d < 2 * (q * d) <= 2 * n + d else 2 * n - d <= 2 * (q * d) < 2 * n + d
  }

  ghost predicate IsRounded(q: int, n: int, d: int, rnd: Mode) {
    if rnd == ROUND_DOWN then IsFloor(q, n, d)
    else if rnd == ROUND_UP then IsCeiling(q, n, d)
    else if rnd == ROUND_ZERO then if n >= 0 then IsFloor(q, n, d) else IsCeiling(q, n, d)
    else if rnd == ROUND_INF then if n >= 0 then IsCeiling(q, n, d) else IsFloor(q, n, d)
    else IsNearest(q, n, d)
  }

  /** A rounded quotient is unique, so `IsRounded` pins the result down completely. */
  lemma RoundedUnique(p: int, q: int, n: int, d: int, rnd: Mode)
    requires d > 0 && IsRounded(p, n, d, rnd) && IsRounded(q, n, d, rnd)
    ensures p == q
  {
    if p < q {
      MultiplesOrdered(p, q, d);
    } else if q < p {
      MultiplesOrdered(q, p, d);
    }
  }

  lemma MirrorTable()
    ensures Mirror(ROUND_ZERO) == ROUND_ZERO && Mirror(ROUND_INF) == ROUND_INF
    ensures Mirror(ROUND_DOWN) == ROUND_UP && Mirror(ROUND_UP) == ROUND_DOWN
    ensures Mirror(ROUND_NEAR_INF) == ROUND_NEAR_INF
    ensures forall rnd: Mode :: ValidMode(rnd) ==> ValidMode(Mirror(rnd)) && Mirror(Mirror(rnd)) == rnd
  {
  }

  lemma NonNegativeRounded(a: int, b: int, c: int, rnd: Mode)
    requires a >= 0 && b >= 0 && c > 0 && ValidMode(rnd)
    ensures IsRounded(RescaleRnd(a, b, c, rnd), a * b, c, rnd)
  {
    var n := a * b;
    assert n >= 0;
    QuotientBounds(n, c);
    QuotientBounds(n + (c - 1), c);
    QuotientBounds(n + c / 2, c);
  }

  /** Negating the numerator negates the rounded quotient in the mirrored mode. */
  lemma NegatedRounded(q: int, n: int, d: int, rnd: Mode)
    requires d > 0 && ValidMode(rnd) && n != 0
    ensures IsRounded(q, n, d, rnd) <==> IsRounded(-q, -n, d, Mirror(rnd))
  {
    MirrorTable();
    assert (-q) * d == -(q * d);
  }

  /** Exactness: in every mode and for both signs, the result is a*b/c rounded as the mode's name says. */
  lemma RescaleIsExact(a: int, b: int, c: int, rnd: Mode)
    requires a > INT64_MIN && b >= 0 && c > 0 && ValidMode(rnd)
    ensures IsRounded(RescaleRnd(a, b, c, rnd), a * b, c, rnd)
    ensures forall q :: IsRounded(q, a * b, c, rnd) ==> q == RescaleRnd(a, b, c, rnd)
  {
    var r := RescaleRnd(a, b, c, rnd);
    assert IsRounded(r, a * b, c, rnd) by {
      if a >= 0 {
        NonNegativeRounded(a, b, c, rnd);
      } else {
        MirrorTable();
        NonNegativeRounded(-a, b, c, Mirror(rnd));
        assert (-a) * b == -(a * b);
        if b == 0 {
          assert a * b == 0;
          ZeroRounded(-r, c, Mirror(rnd));
        } else {
          assert a * b < 0;
          NegatedRounded(-r, -(a * b), c, Mirror(rnd));
        }
      }
    }
    forall q | IsRounded(q, a * b, c, rnd)
      ensures q == r
    {
      RoundedUnique(q, r, a * b, c, rnd);
    }
  }

  lemma ZeroRounded(q: int, d: int, rnd: Mode)
    requires d > 0 && IsRounded(q, 0, d, rnd)
    ensures q == 0
  {
    if q >= 1 {
      MultiplesOrdered(0, q, d);
    } else if q <= -1 {
      MultiplesOrdered(q, 0, d);
    }
  }

  /** Rounding never reverses the order of two numerators. */
  lemma RoundedMonotone(p: int, m: int, q: int, n: int, d: int, rnd: Mode)
    requires d > 0 && m <= n && ValidMode(rnd)
    requires IsRounded(p, m, d, rnd) && IsRounded(q, n, d, rnd)
    ensures p <= q
  {
    if m < 0 <= n {
      RoundedSign(p, m, d, rnd);
      RoundedSign(q, n, d, rnd);
    } else if q < p {
      MultiplesOrdered(q, p, d);
    }
  }

  lemma RoundedSign(q: int, n: int, d: int, rnd: Mode)
    requires d > 0 && ValidMode(rnd) && IsRounded(q, n, d, rnd)
    ensures (n >= 0 ==> q >= 0) && (n <= 0 ==> q <= 0)
  {
    if n >= 0 {
      if q < 0 { MultiplesOrdered(q, 0, d); }
    }
    if n <= 0 {
      if q > 0 { MultiplesOrdered(0, q, d); }
    }
  }

  lemma RescaleMonotone(a: int, a': int, b: int, c: int, rnd: Mode)
    requires INT64_MIN < a <= a' && b >= 0 && c > 0 && ValidMode(rnd)
    ensures RescaleRnd(a, b, c, rnd) <= RescaleRnd(a', b, c, rnd)
  {
    RescaleIsExact(a, b, c, rnd);
    RescaleIsExact(a', b, c, rnd);
    assert a * b <= a' * b;
    RoundedMonotone(RescaleRnd(a, b, c, rnd), a * b, RescaleRnd(a', b, c, rnd), a' * b, c, rnd);
  }

  /** Without a positive divisor, a non-negative factor and a mode that exists there is no result, but INT64_MIN. */
  lemma RescaleRefuses(a: int, b: int, c: int, rnd: Mode)
    requires c <= 0 || b < 0 || rnd == 4 || rnd > 5
    ensures RescaleRnd(a, b, c, rnd) == -0x8000_0000_0000_0000
  {
  }

  /** Negating `a` exchanges "down" and "up" and leaves the three symmetric modes alone. */
  lemma RescaleNegated(a: int, b: int, c: int)
    requires INT64_MIN < a <= INT64_MAX && b >= 0 && c > 0
    ensures RescaleRnd(-a, b, c, ROUND_DOWN) == -RescaleRnd(a, b, c, ROUND_UP)
    ensures RescaleRnd(-a, b, c, ROUND_UP) == -RescaleRnd(a, b, c, ROUND_DOWN)
    ensures forall rnd :: rnd in {ROUND_ZERO, ROUND_INF, ROUND_NEAR_INF} ==>
      RescaleRnd(-a, b, c, rnd) == -RescaleRnd(a, b, c, rnd)
  {
    MirrorTable();
    forall rnd: Mode | ValidMode(rnd)
      ensures RescaleRnd(-a, b, c, Mirror(rnd)) == -RescaleRnd(a, b, c, rnd)
    {
      if a == 0 {
        RescaleIsExact(0, b, c, rnd);
        RescaleIsExact(0, b, c, Mirror(rnd));
        ZeroRounded(RescaleRnd(0, b, c, rnd), c, rnd);
        ZeroRounded(RescaleRnd(0, b, c, Mirror(rnd)), c, Mirror(rnd));
      }
    }
  }

  /** INT64_MIN itself is clamped: it is rescaled as if it were -INT64_MAX. */
  lemma RescaleClampsMinimum(b: int, c: int, rnd: Mode)
    requires b >= 0 && c > 0 && ValidMode(rnd)
    ensures RescaleRnd(INT64_MIN, b, c, rnd) == RescaleRnd(-INT64_MAX, b, c, rnd)
  {
  }

  /** The 128-bit intermediate never overflows for 64-bit arguments. */
  lemma IntermediateFits(a: int, b: int, c: int)
    requires 0 <= a <= INT64_MAX && 0 <= b <= INT64_MAX && 0 < c <= INT64_MAX
    ensures 0 <= a * b + (c - 1) <= INT128_MAX
  {
    ProductsOrdered(a, b, INT64_MAX, INT64_MAX);
    ProductSign(a, b);
  }

  /** Scaling numerator and denominator together does not change the rounding. */
  lemma RoundedScales(q: int, n: int, d: int, g: int, rnd: Mode)
    requires d > 0 && g > 0 && ValidMode(rnd)
    ensures g * d > 0
    ensures IsRounded(q, n, d, rnd) <==> IsRounded(q, g * n, g * d, rnd)
  {
    var m := q * d;
    ScaleOrder(g, 0, d);
    ScaleOrder(g, 0, n);
    ScaledProduct(q, d, g);
    ScaledInterval(g, m, n, d);
    ScaledNearest(g, m, n, d);
  }

  /** So rescaling depends on the ratio of the two timebases only, and not on how it is written. */
  lemma RescaleScales(a: int, b: int, c: int, g: int, rnd: Mode)
    requires b >= 0 && c > 0 && g > 0 && ValidMode(rnd)
    ensures g * b >= 0 && g * c > 0 && RescaleRnd(a, g * b, g * c, rnd) == RescaleRnd(a, b, c, rnd)
    decreases a <= INT64_MIN
  {
    ProductSign(g, b);
    ProductSign(g, c);
    if a <= INT64_MIN {
      RescaleScales(-INT64_MAX, b, c, g, rnd);
    } else {
      hide RescaleRnd, IsRounded;
      RescaleIsExact(a, b, c, rnd);
      RescaleIsExact(a, g * b, g * c, rnd);
      RoundedScales(RescaleRnd(a, b, c, rnd), a * b, c, g, rnd);
      assert g * (a * b) == a * (g * b);
    }
  }

  lemma ScaledProduct(q: int, d: int, g: int)
    ensures q * (g * d) == g * (q * d)
  {
  }

  lemma ScaledInterval(g: int, m: int, n: int, d: int)
    requires g > 0
    ensures m <= n < m + d <==> g * m <= g * n < g * m + g * d
    ensures m - d < n <= m <==> g * m - g * d < g * n <= g * m
  {
    assert g * (m + d) == g * m + g * d && g * (m - d) == g * m - g * d;
    ScaleOrder(g, m, n);
    ScaleOrder(g, n, m);
    ScaleOrder(g, n, m + d);
    ScaleOrder(g, m - d, n);
  }

  lemma ScaledNearest(g: int, m: int, n: int, d: int)
    requires g > 0
    ensures 2 * n - d < 2 * m <= 2 * n + d <==> 2 * (g * n) - g * d < 2 * (g * m) <= 2 * (g * n) + g * d
    ensures 2 * n - d <= 2 * m < 2 * n + d <==> 2 * (g * n) - g * d <= 2 * (g * m) < 2 * (g * n) + g * d
  {
    assert g * (2 * n - d) == 2 * (g * n) - g * d;
    assert g * (2 * n + d) == 2 * (g * n) + g * d;
    assert g * (2 * m) == 2 * (g * m);
    ScaleOrder(g, 2 * n - d, 2 * m);
    ScaleOrder(g, 2 * m, 2 * n + d);
  }
}
