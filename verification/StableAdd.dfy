/** Advancing a timestamp by a step from another timebase without accumulating rounding errors (avt_add_stable). */
module StableAdd {
  import opened FixedWidth
  import opened Products
  import opened Rounding
  import opened TimestampOrder
  import opened BestRational

  /** avt_rescale with rounding to nearest; the 128-bit quotient is narrowed to int64_t on return. */
  function Rescale(a: int, b: int, c: int): int { ToInt64(RescaleRnd(a, b, c, ROUND_NEAR_INF)) }

  // One step is m/d units of the timestamp's own timebase.

  function StepNumerator(tsTb: Rational, incTb: Rational): int { incTb.num * tsTb.den }

  function StepDenominator(tsTb: Rational, incTb: Rational): int { incTb.den * tsTb.num }

  /** A timestamp, or no value at all: signed arithmetic that leaves int64_t is undefined. */
  datatype Stamp = Defined(ts: int) | Undefined

  /** Lines 216-235 of avt_add_stable. The two avt_rescale_rational calls multiply the timebases out to
      d and m again: counting steps rescales by d/m and turning steps into timestamps by m/d.
      Line 216 computes INT64_MAX - m/d, which a step back takes out of range. */
  function Advance(ts: int, m: int, d: int): Stamp
    requires d > 0
  {
    if m % d == 0 && !IsInt64(INT64_MAX - m / d) then
      Undefined
    else if m % d == 0 && ts <= INT64_MAX - m / d then
      Defined(ts + m / d)
    else if m < d then
      Defined(ts)
    else
      AdvanceFraction(ts, m, d)
  }

  /** Lines 221-235: count the steps up to ts, take one more, and keep ts's offset from the counted step, which
      line 228 computes in int64_t. */
  function AdvanceFraction(ts: int, m: int, d: int): Stamp {
    var steps := Rescale(ts, d, m);
    var snapped := Rescale(steps, m, d);
    if steps == INT64_MAX then
      Defined(ts)
    else if !IsInt64(ts - snapped) then
      Undefined
    else
      Defined(Min(Max(Rescale(steps + 1, m, d) + (ts - snapped), INT64_MIN), INT64_MAX))
  }

  function AddStep(tsTb: Rational, ts: int, incTb: Rational): Stamp
    requires StepDenominator(tsTb, incTb) > 0
  {
    Advance(ts, StepNumerator(tsTb, incTb), StepDenominator(tsTb, incTb))
  }

  /** The timestamp after n steps from ts. */
  function RunFrom(ts: int, m: int, d: int, n: nat): Stamp
    requires d > 0
  {
    if n == 0 then Defined(ts)
    else
      var before := RunFrom(ts, m, d, n - 1);
      if before.Undefined? then Undefined else Advance(before.ts, m, d)
  }

  /** The timestamp after n steps from zero. */
  function Run(m: int, d: int, n: nat): Stamp
    requires d > 0
  {
    RunFrom(0, m, d, n)
  }

  /** n * m / d rounded to nearest: the ideal timestamp of step n. */
  function Ideal(n: int, m: int, d: int): int { RescaleRnd(n, m, d, ROUND_NEAR_INF) }

  /** The number of steps up to ts, rounded to nearest. */
  function Count(ts: int, m: int, d: int): int { RescaleRnd(ts, d, m, ROUND_NEAR_INF) }

  lemma IdealBounds(n: nat, m: int, d: int)
    requires 0 < d <= m
    ensures IsNearest(Ideal(n, m, d), n * m, d) && n <= Ideal(n, m, d) <= Ideal(n + 1, m, d)
  {
    hide RescaleRnd;
    RescaleIsExact(n, m, d, ROUND_NEAR_INF);
    ProductsOrdered(n, d, n, m);
    if Ideal(n, m, d) < n { MultiplesOrdered(Ideal(n, m, d), n, d); }
    RescaleMonotone(n, n + 1, m, d, ROUND_NEAR_INF);
  }

  /** A step of at least one unit can be read back off the rounded timestamp. */
  lemma IdealRecovered(n: nat, m: int, d: int)
    requires 0 < d <= m
    ensures RescaleRnd(Ideal(n, m, d), d, m, ROUND_NEAR_INF) == n
  {
    hide RescaleRnd;
    if m == d {
      WholeIdeal(n, 1, d);
    } else {
      var t := Ideal(n, m, d);
      IdealBounds(n, m, d);
      NearestInverts(t, n, m, d);
      RescaleIsExact(t, d, m, ROUND_NEAR_INF);
      RoundedUnique(n, RescaleRnd(t, d, m, ROUND_NEAR_INF), t * d, m, ROUND_NEAR_INF);
    }
  }

  lemma NearestInverts(t: int, n: int, m: int, d: int)
    requires 0 < d < m && n >= 0 && t >= 0 && IsNearest(t, n * m, d)
    ensures IsNearest(n, t * d, m)
  {
    ProductSign(n, m);
    ProductSign(t, d);
  }

  /** Steps of a whole number of units add up without any rounding. */
  lemma WholeSteps(n: nat, m: int, d: int)
    requires 0 < d <= m && m % d == 0
    ensures Ideal(n + 1, m, d) == Ideal(n, m, d) + m / d
  {
    var k := m / d;
    assert m == k * d;
    WholeIdeal(n, k, d);
    WholeIdeal(n + 1, k, d);
    assert (n + 1) * k == n * k + k;
  }

  lemma WholeIdeal(n: nat, k: int, d: int)
    requires d > 0 && k * d >= 1
    ensures Ideal(n, k * d, d) == n * k
  {
    assert n * (k * d) == (n * k) * d;
    ProductSign(n, k * d);
    RescaleIsExact(n, k * d, d, ROUND_NEAR_INF);
    assert IsRounded(n * k, n * (k * d), d, ROUND_NEAR_INF);
  }

  /** One step from an ideal timestamp leads to the next ideal timestamp. */
  lemma StepFromIdeal(n: nat, m: int, d: int)
    requires 0 < d <= m && Ideal(n + 1, m, d) <= INT64_MAX
    ensures Advance(Ideal(n, m, d), m, d) == Defined(Ideal(n + 1, m, d))
  {
    IdealBounds(n, m, d);
    IdealBounds(n + 1, m, d);
    if m % d == 0 {
      WholeSteps(n, m, d);
      QuotientNonNegative(m, d);
    } else {
      IdealRecovered(n, m, d);
      ToInt64Keeps(n);
      ToInt64Keeps(Ideal(n, m, d));
      ToInt64Keeps(Ideal(n + 1, m, d));
    }
  }

  /** No drift: with a step of at least one unit, n calls from zero give exactly n steps rounded to nearest, for every n
      that fits, and rescaling the timestamp back yields n again. */
  lemma {:induction false} NoDrift(m: int, d: int, n: nat)
    requires 0 < d <= m && Ideal(n, m, d) <= INT64_MAX
    ensures Run(m, d, n).Defined? && IsNearest(Run(m, d, n).ts, n * m, d)
    ensures Rescale(Run(m, d, n).ts, d, m) == n
  {
    RunIsIdeal(m, d, n);
    IdealBounds(n, m, d);
    IdealRecovered(n, m, d);
    ToInt64Keeps(n);
  }

  lemma {:induction false} RunIsIdeal(m: int, d: int, n: nat)
    requires 0 < d <= m && Ideal(n, m, d) <= INT64_MAX
    ensures Run(m, d, n) == Defined(Ideal(n, m, d))
  {
    if n == 0 {
      RescaleIsExact(0, m, d, ROUND_NEAR_INF);
      ZeroRounded(Ideal(0, m, d), d, ROUND_NEAR_INF);
    } else {
      IdealBounds(n - 1, m, d);
      RunIsIdeal(m, d, n - 1);
      StepFromIdeal(n - 1, m, d);
    }
  }

  /** Roundings to nearest of two numbers m/d apart, m/d not whole, are floor(m/d) or ceil(m/d) apart.
      Here k is floor(m/d). */
  lemma NearestGap(x: int, m: int, d: int, p: int, q: int, k: int)
    requires d > 0 && k * d < m < k * d + d
    requires IsNearest(p, x, d) && IsNearest(q, x + m, d)
    ensures k <= q - p <= k + 1
  {
    GapByMultiples(p, q, k, m, d);
  }

  lemma GapByMultiples(p: int, q: int, k: int, m: int, d: int)
    requires d > 0 && k * d < m < k * d + d && m - d <= q * d - p * d <= m + d
    ensures k <= q - p <= k + 1
  {
    Distribute(d, p, k);
    Distribute(d, p + k, 1);
    FactorAtMost(p + k, q, d);
    FactorAtMost(q, p + k + 1, d);
  }

  /** Counting the steps in ts and turning them back into a timestamp moves it by at most half a step. */
  lemma SnapIsClose(ts: int, steps: int, snapped: int, m: int, d: int, k: int)
    requires 0 < d <= m < k * d + d && IsNearest(steps, ts * d, m) && IsNearest(snapped, steps * m, d)
    ensures 2 * Abs(snapped - ts) <= k + 2
  {
    SnapByMultiples(2 * ts, 2 * snapped, k + 2, d) by {
      Associate(2, ts, d);
      Associate(2, snapped, d);
      Distribute(d, k, 2);
    }
  }

  lemma SnapByMultiples(a: int, b: int, c: int, d: int)
    requires d > 0 && b * d - a * d < c * d + d && a * d - b * d < c * d + d
    ensures Abs(b - a) <= c
  {
    Distribute(d, a, c);
    Distribute(d, b, c);
    FactorAtMost(b, a + c, d);
    FactorAtMost(a, b + c, d);
  }

  /** Neither the timestamp of the steps counted nor that of one more leaves int64_t. */
  ghost predicate StepsFit(ts: int, m: int, d: int) {
    var steps := RescaleRnd(ts, d, m, ROUND_NEAR_INF);
    IsInt64(RescaleRnd(steps, m, d, ROUND_NEAR_INF)) && IsInt64(RescaleRnd(steps + 1, m, d, ROUND_NEAR_INF))
  }

  /** From any timestamp, unless something overflows, one call advances by the floor or the ceiling of the step,
      (m + d - 1) / d. */
  lemma StepIsFloorOrCeiling(ts: int, m: int, d: int)
    requires 0 < d <= m <= INT64_MAX && INT64_MIN < ts && ts + (m + d - 1) / d <= INT64_MAX
    requires m % d != 0 ==> StepsFit(ts, m, d)
    ensures Advance(ts, m, d).Defined? && m / d <= Advance(ts, m, d).ts - ts <= (m + d - 1) / d
  {
    CeilingQuotient(m, d);
    QuotientBounds(m, d);
    QuotientNonNegative(m, d);
    if m / d > m { MultiplesOrdered(m, m / d, d); AtLeastOnce(d, m); }
    if m % d != 0 { FractionalStep(ts, m, d, m / d); }
  }

  lemma FractionalStep(ts: int, m: int, d: int, k: int)
    requires 0 < d <= m && k * d < m < k * d + d && INT64_MIN < ts && ts + k + 1 <= INT64_MAX && 0 <= k <= INT64_MAX
    requires StepsFit(ts, m, d)
    ensures AdvanceFraction(ts, m, d).Defined? && k <= AdvanceFraction(ts, m, d).ts - ts <= k + 1
    ensures AdvanceFraction(ts, m, d).ts == ts + Ideal(Count(ts, m, d) + 1, m, d) - Ideal(Count(ts, m, d), m, d)
  {
    hide RescaleRnd;
    var steps := Count(ts, m, d);
    RescaleIsExact(ts, d, m, ROUND_NEAR_INF);
    StepsWithin(ts, steps, m, d);
    ToInt64Keeps(steps);
    SnapAndStep(ts, steps, m, d, k);
    ToInt64Keeps(Ideal(steps, m, d));
    ToInt64Keeps(Ideal(steps + 1, m, d));
  }

  lemma SnapAndStep(ts: int, steps: int, m: int, d: int, k: int)
    requires 0 < d <= m && k * d < m < k * d + d && 0 <= k
    requires IsNearest(steps, ts * d, m) && INT64_MIN < steps
    ensures var snapped, next := RescaleRnd(steps, m, d, ROUND_NEAR_INF), RescaleRnd(steps + 1, m, d, ROUND_NEAR_INF);
      k <= next - snapped <= k + 1 && 2 * Abs(snapped - ts) <= k + 2
  {
    hide RescaleRnd;
    var snapped, next := RescaleRnd(steps, m, d, ROUND_NEAR_INF), RescaleRnd(steps + 1, m, d, ROUND_NEAR_INF);
    NextSteps(steps, m, d);
    NearestGap(steps * m, m, d, snapped, next, k);
    SnapIsClose(ts, steps, snapped, m, d, k);
  }

  /** Two steps' distance from the ends of int64_t is room enough. */
  lemma TwoStepsAreRoom(ts: int, m: int, d: int)
    requires 0 < d <= m && Abs(ts) + 2 * (m / d) + 3 <= INT64_MAX
    ensures StepsFit(ts, m, d) && ts + (m + d - 1) / d <= INT64_MAX
  {
    hide RescaleRnd;
    var steps := RescaleRnd(ts, d, m, ROUND_NEAR_INF);
    CeilingQuotient(m, d);
    QuotientBounds(m, d);
    QuotientNonNegative(m, d);
    RescaleIsExact(ts, d, m, ROUND_NEAR_INF);
    StepsWithin(ts, steps, m, d);
    if m % d == 0 {
      WholeSnap(ts, steps, m, d, m / d);
    } else {
      SnapAndStep(ts, steps, m, d, m / d);
    }
  }

  lemma WholeSnap(ts: int, steps: int, m: int, d: int, k: int)
    requires 0 < d <= m && m == k * d && 0 <= k && IsNearest(steps, ts * d, m) && INT64_MIN < steps
    ensures var snapped, next := RescaleRnd(steps, m, d, ROUND_NEAR_INF), RescaleRnd(steps + 1, m, d, ROUND_NEAR_INF);
      next - snapped == k && 2 * Abs(snapped - ts) <= k + 2
  {
    hide RescaleRnd;
    var snapped, next := RescaleRnd(steps, m, d, ROUND_NEAR_INF), RescaleRnd(steps + 1, m, d, ROUND_NEAR_INF);
    NextSteps(steps, m, d);
    SnapIsClose(ts, steps, snapped, m, d, k);
    Associate(steps, k, d);
    Distribute(d, steps * k, k);
    WholeIsNearest(steps * k, d);
    WholeIsNearest(steps * k + k, d);
    RoundedUnique(snapped, steps * k, steps * m, d, ROUND_NEAR_INF);
    RoundedUnique(next, steps * k + k, steps * m + m, d, ROUND_NEAR_INF);
  }

  lemma NextSteps(steps: int, m: int, d: int)
    requires 0 < d && 0 <= m && INT64_MIN < steps
    ensures IsNearest(RescaleRnd(steps, m, d, ROUND_NEAR_INF), steps * m, d)
    ensures IsNearest(RescaleRnd(steps + 1, m, d, ROUND_NEAR_INF), steps * m + m, d)
  {
    hide RescaleRnd;
    RescaleIsExact(steps, m, d, ROUND_NEAR_INF);
    RescaleIsExact(steps + 1, m, d, ROUND_NEAR_INF);
    Distribute(m, steps, 1);
  }

  lemma StepsWithin(ts: int, steps: int, m: int, d: int)
    requires 0 < d <= m && IsNearest(steps, ts * d, m)
    ensures Abs(steps) <= Abs(ts)
  {
    var bound: int := Abs(ts);
    ScaledAtMost(ts, d, m);
    WholeIsNearest(bound, m);
    WholeIsNearest(-bound, m);
    RoundedMonotone(steps, ts * d, bound, bound * m, m, ROUND_NEAR_INF);
    RoundedMonotone(-bound, -bound * m, steps, ts * d, m, ROUND_NEAR_INF);
  }

  lemma WholeIsNearest(q: int, m: int)
    requires m > 0
    ensures IsNearest(q, q * m, m)
  {
  }

  lemma ScaledAtMost(ts: int, d: int, m: int)
    requires 0 < d <= m
    ensures -(Abs(ts) as int) * m <= ts * d <= Abs(ts) * m
  {
    ProductsOrdered(Abs(ts), d, Abs(ts), m);
    ProductSign(Abs(ts), d);
    ProductSign(Abs(ts), m);
    assert -(Abs(ts) as int) * m == -(Abs(ts) * m);
    assert ts >= 0 || ts * d == -(Abs(ts) * d);
  }

  lemma CeilingQuotient(m: int, d: int)
    requires d > 0
    ensures (m + d - 1) / d == if m % d == 0 then m / d else m / d + 1
  {
    var k, rest := m / d, m % d;
    QuotientBounds(m, d);
    Distribute(d, k, 1);
    if rest == 0 {
      DivisionUnique(m + d - 1, d, k, d - 1);
    } else {
      DivisionUnique(m + d - 1, d, k + 1, rest - 1);
    }
  }

  /** The exact condition for runs without drift: the step is at least one unit. A shorter one is dropped by the test
      m < d each time, so that the run never leaves zero. */
  lemma DriftsIffShort(m: int, d: int)
    requires 0 < m <= INT64_MAX && d > 0
    ensures (forall n: nat :: Ideal(n, m, d) <= INT64_MAX ==> Run(m, d, n) == Defined(Ideal(n, m, d))) <==> d <= m
    ensures m < d ==> forall n: nat :: Run(m, d, n) == Defined(0)
  {
    if d <= m {
      forall n: nat | Ideal(n, m, d) <= INT64_MAX
        ensures Run(m, d, n) == Defined(Ideal(n, m, d))
      {
        RunIsIdeal(m, d, n);
      }
    } else {
      forall n: nat
        ensures Run(m, d, n) == Defined(0)
      {
        ShortRunStays(0, m, d, n);
      }
      LapIsWhole(m, d);
      assert Run(m, d, d) != Defined(Ideal(d, m, d));
    }
  }

  lemma ShortStepIsLost(ts: int, m: int, d: int)
    requires 0 < m < d
    ensures m % d != 0 && Advance(ts, m, d) == Defined(ts)
  {
    assert m % d == m;
  }

  lemma {:induction false} ShortRunStays(ts: int, m: int, d: int, n: nat)
    requires 0 < m < d
    ensures RunFrom(ts, m, d, n) == Defined(ts)
  {
    if n > 0 {
      ShortRunStays(ts, m, d, n - 1);
      ShortStepIsLost(ts, m, d);
    }
  }

  lemma LapIsWhole(m: int, d: int)
    requires 0 < m && 0 < d
    ensures Ideal(d, m, d) == m
  {
    RescaleIsExact(d, m, d, ROUND_NEAR_INF);
    WholeIsNearest(m, d);
    RoundedUnique(m, Ideal(d, m, d), d * m, d, ROUND_NEAR_INF);
  }

  /** Whatever the step, what comes out of a timestamp is one. */
  lemma StaysInRange(ts: int, m: int, d: int)
    requires IsInt64(ts) && d > 0 && Advance(ts, m, d).Defined?
    ensures -0x8000_0000_0000_0000 <= Advance(ts, m, d).ts <= 0x7FFF_FFFF_FFFF_FFFF
  {
    hide Rescale;
  }

  /** Where the arithmetic is undefined: line 216 for a whole step back, and line 228 for an offset beyond int64_t. */
  lemma WhenUndefined(ts: int, m: int, d: int)
    requires d > 0
    ensures var steps := Rescale(ts, d, m);
      var offset := ts - Rescale(steps, m, d);
      Advance(ts, m, d).Undefined? <==>
        if m % d == 0 && !(0 <= m / d <= 0xFFFF_FFFF_FFFF_FFFF) then true
        else !(m % d == 0 && ts <= 0x7FFF_FFFF_FFFF_FFFF - m / d) && m >= d && steps != 0x7FFF_FFFF_FFFF_FFFF
             && !(-0x8000_0000_0000_0000 <= offset <= 0x7FFF_FFFF_FFFF_FFFF)
  {
    hide Rescale;
  }

  /** There is no stepping over the end: the last timestamp stays where it is. */
  lemma EndStays(m: int)
    requires 0 < m <= INT64_MAX
    ensures Advance(INT64_MAX, m, m) == Defined(INT64_MAX)
  {
    hide RescaleRnd, IsNearest;
    RescaleIsExact(INT64_MAX, m, m, ROUND_NEAR_INF);
    WholeIsNearest(INT64_MAX, m);
    RoundedUnique(INT64_MAX, Count(INT64_MAX, m, m), INT64_MAX * m, m, ROUND_NEAR_INF);
    ToInt64Keeps(INT64_MAX);
    DivisionUnique(m, m, 1, 0);
  }

  // Runs from anywhere. A timestamp is its count of steps put back into timestamps, and an offset from there, which a call
  // keeps. Next time, though, the rounding may count a step more or less, if the offset is about half a step.

  /** d times the offset of ts from the steps counted. */
  ghost function Offset(ts: int, m: int, d: int): int { (ts - Ideal(Count(ts, m, d), m, d)) * d }

  /** d times the rounding error of the timestamp of `steps` steps. */
  ghost function Error(steps: int, m: int, d: int): int { Ideal(steps, m, d) * d - steps * m }

  /** The count is h steps ahead of the calls made, x being the offset with these h steps taken back, and y the offset
      at the start. Once the count has gone ahead, it goes back or ahead again only about half a step from where it
      should be. */
  ghost predicate Ahead(h: int, x: int, y: int, m: int, d: int) {
    0 <= h <= 1 && -3 * d <= 2 * x - m <= 3 * d && -d <= 2 * y - m <= d
  }

  ghost predicate OnCourse(h: int, x: int, y: int, m: int, d: int) {
    (h == 0 && x == y) || Ahead(h, x, y, m, d) || Ahead(-h, -x, -y, m, d)
  }

  /** What it takes here that p is a multiple of d. */
  ghost predicate Whole(p: int, d: int) { (p < d ==> p <= 0) && (p > -d ==> p >= 0) }

  /** How a call changes the offset from p to p', the errors being r before, r1 one step on and r' after. */
  ghost predicate Recounted(g: int, p: int, p': int, r: int, r1: int, r': int, m: int, d: int) {
    && -d <= 2 * r <= d && -d <= 2 * r1 <= d && -d <= 2 * r' <= d
    && -m <= 2 * (p + r) <= m && -m <= 2 * (p' + r') <= m
    && -1 <= g <= 1 && p + r1 == g * m + p' + r' && (g == 0 ==> r' == r1)
  }

  lemma StaysAhead(h: int, g: int, p: int, p': int, y: int, r: int, r1: int, r': int, m: int, d: int)
    requires 0 < d < m && Whole(p, d) && Recounted(g, p, p', r, r1, r', m, d) && Ahead(h, p + h * m, y, m, d)
    ensures Ahead(h + g, p' + (h + g) * m, y, m, d)
  {
  }

  lemma StaysOnCourse(h: int, g: int, p: int, p': int, y: int, r: int, r1: int, r': int, m: int, d: int)
    requires 0 < d < m && Whole(p, d) && Recounted(g, p, p', r, r1, r', m, d) && OnCourse(h, p + h * m, y, m, d)
    ensures OnCourse(h + g, p' + (h + g) * m, y, m, d)
  {
    if Ahead(h, p + h * m, y, m, d) {
      StaysAhead(h, g, p, p', y, r, r1, r', m, d);
    } else if Ahead(-h, -(p + h * m), -y, m, d) {
      hide Ahead, Recounted, Whole;
      NegatedCourse(h, p, m);
      NegatedCourse(h + g, p', m);
      Reversed(g, p, p', r, r1, r', m, d);
      StaysAhead(-h, -g, -p, -p', -y, -r, -r1, -r', m, d);
    } else {
      LeavesStart(g, p, p', r, r1, r', m, d);
    }
  }

  lemma NegatedCourse(h: int, p: int, m: int)
    ensures -(p + h * m) == -p + -h * m
  {
  }

  lemma Reversed(g: int, p: int, p': int, r: int, r1: int, r': int, m: int, d: int)
    requires Whole(p, d) && Recounted(g, p, p', r, r1, r', m, d)
    ensures Whole(-p, d) && Recounted(-g, -p, -p', -r, -r1, -r', m, d)
  {
  }

  lemma LeavesStart(g: int, p: int, p': int, r: int, r1: int, r': int, m: int, d: int)
    requires 0 < d < m && Recounted(g, p, p', r, r1, r', m, d)
    ensures OnCourse(g, p' + g * m, p, m, d)
  {
  }

  /** Rounding the steps counted in ts. */
  lemma Rounded(ts: int, m: int, d: int)
    requires 0 < d <= m && INT64_MIN < ts
    ensures var (steps, p) := (Count(ts, m, d), Offset(ts, m, d));
      && ts * d == p + steps * m + Error(steps, m, d) && Whole(p, d)
      && -d <= 2 * Error(steps, m, d) <= d && -d <= 2 * Error(steps + 1, m, d) <= d
      && -m <= 2 * (p + Error(steps, m, d)) <= m
  {
    hide *;
    CountIsNearest(ts, m, d);
    OffsetIsRest(ts, m, d);
    ErrorIsSmall(Count(ts, m, d), m, d);
    ErrorIsSmall(Count(ts, m, d) + 1, m, d);
  }

  lemma CountIsNearest(ts: int, m: int, d: int)
    requires 0 < d <= m && INT64_MIN < ts
    ensures -m <= 2 * (ts * d - Count(ts, m, d) * m) <= m && INT64_MIN < Count(ts, m, d)
  {
    hide RescaleRnd, IsRounded;
    RescaleIsExact(ts, d, m, ROUND_NEAR_INF);
    NearestIsRounded(Count(ts, m, d), ts * d, m);
    hide IsNearest;
    StepsWithin(ts, Count(ts, m, d), m, d);
  }

  lemma NearestIsRounded(q: int, n: int, d: int)
    requires d > 0 && IsRounded(q, n, d, ROUND_NEAR_INF)
    ensures IsNearest(q, n, d) && -d <= 2 * (n - q * d) <= d
  {
  }

  lemma OffsetIsRest(ts: int, m: int, d: int)
    requires d > 0
    ensures ts * d == Offset(ts, m, d) + Count(ts, m, d) * m + Error(Count(ts, m, d), m, d)
    ensures Whole(Offset(ts, m, d), d)
  {
    hide RescaleRnd, Whole, Count, Ideal;
    var snapped := Ideal(Count(ts, m, d), m, d);
    Distribute(d, ts, snapped);
    MultipleIsWhole(ts - snapped, d);
  }

  lemma ErrorIsSmall(steps: int, m: int, d: int)
    requires 0 < d && 0 <= m && INT64_MIN < steps
    ensures -d <= 2 * Error(steps, m, d) <= d
  {
    hide RescaleRnd;
    RescaleIsExact(steps, m, d, ROUND_NEAR_INF);
  }

  lemma MultipleIsWhole(b: int, d: int)
    requires d > 0
    ensures Whole(b * d, d)
  {
    if b >= 1 { MultiplesOrdered(0, b, d); }
    if b <= -1 { MultiplesOrdered(b, 0, d); }
  }

  /** Fractional steps: the offset is kept, and recounted. */
  lemma StepRecounts(ts: int, m: int, d: int)
    requires 0 < d <= m <= INT64_MAX && m % d != 0 && Abs(ts) + 2 * (m / d) + 3 <= INT64_MAX
    ensures Advance(ts, m, d).Defined? && INT64_MIN < Advance(ts, m, d).ts
    ensures var ts' := Advance(ts, m, d).ts;
      var (j, j') := (Count(ts, m, d), Count(ts', m, d));
      Recounted(j' - j - 1, Offset(ts, m, d), Offset(ts', m, d), Error(j, m, d), Error(j + 1, m, d), Error(j', m, d), m, d)
  {
    hide *;
    RoomySteps(ts, m, d);
    var ts' := Advance(ts, m, d).ts;
    var j, j' := Count(ts, m, d), Count(ts', m, d);
    Rounded(ts, m, d);
    Rounded(ts', m, d);
    StepScaled(ts, ts', m, d);
    Distribute(m, j', j + 1);
    LongerThanUnit(m, d);
    OneStepOff(j' - j - 1, Offset(ts, m, d), Offset(ts', m, d), Error(j, m, d), Error(j + 1, m, d), Error(j', m, d),
               m, d);
  }

  lemma LongerThanUnit(m: int, d: int)
    requires 0 < d <= m && m % d != 0
    ensures d < m
  {
  }

  lemma StepScaled(ts: int, ts': int, m: int, d: int)
    requires ts' == ts + Ideal(Count(ts, m, d) + 1, m, d) - Ideal(Count(ts, m, d), m, d)
    ensures ts' * d == Offset(ts, m, d) + (Count(ts, m, d) + 1) * m + Error(Count(ts, m, d) + 1, m, d)
  {
    hide RescaleRnd, Count, Ideal;
    var j := Count(ts, m, d);
    Distribute(d, ts - Ideal(j, m, d), Ideal(j + 1, m, d));
    assert ts' == ts - Ideal(j, m, d) + Ideal(j + 1, m, d);
  }

  lemma RoomySteps(ts: int, m: int, d: int)
    requires 0 < d <= m <= INT64_MAX && m % d != 0 && Abs(ts) + 2 * (m / d) + 3 <= INT64_MAX
    ensures Advance(ts, m, d).Defined? && INT64_MIN < Advance(ts, m, d).ts && INT64_MIN < ts
    ensures Advance(ts, m, d).ts == ts + Ideal(Count(ts, m, d) + 1, m, d) - Ideal(Count(ts, m, d), m, d)
  {
    hide RescaleRnd, StepsFit, AdvanceFraction;
    TwoStepsAreRoom(ts, m, d);
    CeilingQuotient(m, d);
    QuotientBounds(m, d);
    QuotientNonNegative(m, d);
    FractionalStep(ts, m, d, m / d);
  }

  lemma OneStepOff(g: int, p: int, p': int, r: int, r1: int, r': int, m: int, d: int)
    requires 0 < d < m && p + r1 == g * m + p' + r' && (g == 0 ==> r' == r1)
    requires -d <= 2 * r <= d && -d <= 2 * r1 <= d && -d <= 2 * r' <= d && -m <= 2 * (p + r) <= m
    requires -m <= 2 * (p' + r') <= m
    ensures Recounted(g, p, p', r, r1, r', m, d)
  {
    FactorAtMost(g, 1, m);
    FactorAtMost(-1, g, m);
  }

  /** Every timestamp between ts and n steps on is two steps away from the ends of int64_t. */
  ghost predicate Room(ts: int, m: int, d: int, n: nat)
    requires d > 0
  {
    ts - 2 * (m / d) - 6 >= -INT64_MAX && ts + (n * m) / d + 2 * (m / d) + 6 <= INT64_MAX
  }

  /** No drift from anywhere: with a step of at least one unit, n calls lead to n steps from the start, to within three
      units, however many calls there are; and without any error if the step is a whole number of units. */
  lemma {:induction false} StaysClose(ts: int, m: int, d: int, n: nat)
    requires 0 < d <= m <= INT64_MAX && Room(ts, m, d, n)
    ensures RunFrom(ts, m, d, n).Defined?
    ensures -3 * d <= RunFrom(ts, m, d, n).ts * d - ts * d - n * m <= 3 * d
    ensures m % d == 0 ==> RunFrom(ts, m, d, n).ts == ts + n * (m / d)
  {
    hide Advance, Room;
    if m % d == 0 { WholeRun(ts, m, d, n); } else { RunFollows(ts, m, d, n); }
  }

  /** The count of n calls, and the offset, against those at the start. */
  ghost predicate Follows(ts: int, ts': int, m: int, d: int, n: nat) {
    var h := Count(ts', m, d) - Count(ts, m, d) - n;
    INT64_MIN < ts' && OnCourse(h, Offset(ts', m, d) + h * m, Offset(ts, m, d), m, d)
  }

  lemma {:induction false} RunFollows(ts: int, m: int, d: int, n: nat)
    requires 0 < d <= m <= INT64_MAX && m % d != 0 && Room(ts, m, d, n)
    ensures RunFrom(ts, m, d, n).Defined? && Follows(ts, RunFrom(ts, m, d, n).ts, m, d, n)
    ensures -3 * d <= RunFrom(ts, m, d, n).ts * d - ts * d - n * m <= 3 * d
  {
    hide *;
    RunFromUnfolds(ts, m, d, n);
    SomeRoom(ts, m, d, n);
    if n == 0 {
      StartFollows(ts, m, d);
    } else {
      LessRoom(ts, m, d, n);
      RunFollows(ts, m, d, n - 1);
      var before := RunFrom(ts, m, d, n - 1).ts;
      CloseIsRoomy(ts, before, m, d, n - 1);
      NextFollows(ts, before, m, d, n - 1);
    }
    FollowsIsClose(ts, RunFrom(ts, m, d, n).ts, m, d, n);
  }

  lemma RunFromUnfolds(ts: int, m: int, d: int, n: nat)
    requires d > 0
    ensures n == 0 ==> RunFrom(ts, m, d, n) == Defined(ts)
    ensures n > 0 && RunFrom(ts, m, d, n - 1).Defined? ==> RunFrom(ts, m, d, n) == Advance(RunFrom(ts, m, d, n - 1).ts, m, d)
  {
  }

  lemma SomeRoom(ts: int, m: int, d: int, n: nat)
    requires 0 < d <= m && Room(ts, m, d, n)
    ensures INT64_MIN < ts
  {
    QuotientNonNegative(m, d);
  }

  lemma StartFollows(ts: int, m: int, d: int)
    requires 0 < d && INT64_MIN < ts
    ensures Follows(ts, ts, m, d, 0)
  {
    hide Count, Offset;
  }

  lemma NextFollows(start: int, ts: int, m: int, d: int, n: nat)
    requires 0 < d <= m <= INT64_MAX && m % d != 0 && Abs(ts) + 2 * (m / d) + 3 <= INT64_MAX
    requires Follows(start, ts, m, d, n)
    ensures Advance(ts, m, d).Defined? && Follows(start, Advance(ts, m, d).ts, m, d, n + 1)
  {
    hide Advance, OnCourse, Count, Offset, Error, Recounted, Whole;
    StepRecounts(ts, m, d);
    Rounded(ts, m, d);
    var ts' := Advance(ts, m, d).ts;
    var j, j' := Count(ts, m, d), Count(ts', m, d);
    LongerThanUnit(m, d);
    StaysOnCourse(j - Count(start, m, d) - n, j' - j - 1, Offset(ts, m, d), Offset(ts', m, d), Offset(start, m, d),
      Error(j, m, d), Error(j + 1, m, d), Error(j', m, d), m, d);
  }

  lemma FollowsIsClose(ts: int, ts': int, m: int, d: int, n: nat)
    requires 0 < d <= m && INT64_MIN < ts && Follows(ts, ts', m, d, n)
    ensures -3 * d <= ts' * d - ts * d - n * m <= 3 * d
  {
    hide Count, Offset, Error, Whole;
    Rounded(ts, m, d);
    Rounded(ts', m, d);
    var j, j' := Count(ts, m, d), Count(ts', m, d);
    Distribute(m, j' - j, n);
    Distribute(m, j', j);
  }

  lemma CloseIsRoomy(ts: int, ts': int, m: int, d: int, n: nat)
    requires 0 < d <= m && Room(ts, m, d, n) && -3 * d <= ts' * d - ts * d - n * m <= 3 * d
    ensures Abs(ts') + 2 * (m / d) + 3 <= INT64_MAX
  {
    QuotientBounds(n * m, d);
    ProductSign(n, m);
    Distribute(d, ts + (n * m) / d, 3);
    Distribute(d, ts, (n * m) / d);
    Distribute(d, ts, 3);
    FactorAtMost(ts', ts + (n * m) / d + 3, d);
    FactorAtMost(ts - 3, ts', d);
  }

  lemma LessRoom(ts: int, m: int, d: int, n: nat)
    requires 0 < d <= m && n > 0 && Room(ts, m, d, n)
    ensures Room(ts, m, d, n - 1)
  {
    Distribute(m, n, 1);
    QuotientBounds(n * m, d);
    QuotientBounds((n - 1) * m, d);
    FactorAtMost(((n - 1) * m) / d, (n * m) / d, d);
  }

  lemma {:induction false} WholeRun(ts: int, m: int, d: int, n: nat)
    requires 0 < d <= m <= INT64_MAX && m % d == 0 && Room(ts, m, d, n)
    ensures RunFrom(ts, m, d, n) == Defined(ts + n * (m / d)) && (ts + n * (m / d)) * d == ts * d + n * m
  {
    hide Room;
    var k := m / d;
    QuotientBounds(m, d);
    Associate(n, k, d);
    Distribute(d, ts, n * k);
    if n > 0 {
      LessRoom(ts, m, d, n);
      WholeRun(ts, m, d, n - 1);
      Distribute(k, n, 1);
      CloseIsRoomy(ts, ts + (n - 1) * k, m, d, n - 1);
      WholeStep(ts + (n - 1) * k, m, d);
    }
  }

  lemma WholeStep(ts: int, m: int, d: int)
    requires 0 < d <= m <= INT64_MAX && m % d == 0 && Abs(ts) + 2 * (m / d) + 3 <= INT64_MAX
    ensures Advance(ts, m, d) == Defined(ts + m / d)
  {
    QuotientNonNegative(m, d);
  }

  /** A step back by a whole number of units overflows on line 216, and any other one is dropped by the test m < d. */
  lemma StepBack(ts: int, m: int, d: int)
    requires 0 < m && 0 < d
    ensures Advance(ts, -m, d) == if m % d == 0 then Undefined else Defined(ts)
  {
    if m % d == 0 {
      MultipleNegated(m, d);
      WholeStepIsPositive(m, d);
    } else if (-m) % d == 0 {
      MultipleNegated(-m, d);
    }
  }

  lemma OneUnitOrMore(m: int, d: int)
    requires 0 < d <= m
    ensures m / d >= 1
  {
    QuotientBounds(m, d);
    FactorAtMost(1, m / d, d);
  }

  lemma WholeStepIsPositive(m: int, d: int)
    requires 0 < m && 0 < d && m % d == 0
    ensures m / d >= 1
  {
    QuotientBounds(m, d);
    PositiveFactor(m / d, d);
  }

  /** So the one thing a step back ever undoes is a step forward that did nothing. */
  lemma UndoneIffLost(ts: int, m: int, d: int)
    requires 0 < m <= INT64_MAX && 0 < d && INT64_MIN < ts && ts + (m + d - 1) / d <= INT64_MAX
    requires d <= m && m % d != 0 ==> StepsFit(ts, m, d)
    ensures var there := Advance(ts, m, d); there.Defined? && (Advance(there.ts, -m, d) == Defined(ts) <==> m < d)
  {
    hide Advance, StepsFit;
    if m < d {
      ShortStepIsLost(ts, m, d);
      StepBack(ts, m, d);
    } else {
      StepIsFloorOrCeiling(ts, m, d);
      OneUnitOrMore(m, d);
      StepBack(Advance(ts, m, d).ts, m, d);
    }
  }

  /** The smallest case: one unit forward and one unit back, in one timebase. */
  lemma OneUnitBack()
    ensures AddStep(Rational(1, 1), 0, Rational(1, 1)) == Defined(1)
    ensures AddStep(Rational(1, 1), 1, Rational(-1, 1)) == Undefined
  {
    StepBack(1, 1, 1);
  }

  lemma MultipleNegated(m: int, d: int)
    requires d > 0 && m % d == 0
    ensures (-m) % d == 0 && (-m) / d == -(m / d)
  {
    QuotientBounds(m, d);
    assert -(m / d) * d == -((m / d) * d);
    DivisionUnique(-m, d, -(m / d), 0);
  }

  lemma AdvanceScales(ts: int, m: int, d: int, g: int)
    requires d > 0 && g > 0
    ensures g * d > 0 && Advance(ts, g * m, g * d) == Advance(ts, m, d)
  {
    ProductSign(g, d);
    ScaleOrder(g, m, d);
    ScaledQuotient(m, d, g);
    if m >= d { FractionScales(ts, m, d, g); }
    hide AdvanceFraction;
  }

  lemma FractionScales(ts: int, m: int, d: int, g: int)
    requires 0 < d <= m && g > 0
    ensures AdvanceFraction(ts, g * m, g * d) == AdvanceFraction(ts, m, d)
  {
    hide RescaleRnd;
    RescaleScales(ts, d, m, g, ROUND_NEAR_INF);
    var steps := Rescale(ts, d, m);
    RescaleScales(steps, m, d, g, ROUND_NEAR_INF);
    RescaleScales(steps + 1, m, d, g, ROUND_NEAR_INF);
  }

  lemma ScaledQuotient(m: int, d: int, g: int)
    requires d > 0 && g > 0
    ensures g * d > 0 && (g * m) / (g * d) == m / d && ((g * m) % (g * d) == 0 <==> m % d == 0)
  {
    ProductSign(g, d);
    QuotientBounds(m, d);
    ProductSign(g, m % d);
    MultiplesOrdered(m % d, d, g);
    Distribute(g, (m / d) * d, m % d);
    assert g * ((m / d) * d) == (m / d) * (g * d);
    DivisionUnique(g * m, g * d, m / d, g * (m % d));
  }

  /** Only the ratio of the two timebases matters: written differently, they give the same timestamp. */
  lemma OnlyRatioMatters(ts: int, m: int, d: int, m': int, d': int)
    requires d > 0 && d' > 0 && m * d' == m' * d
    ensures Advance(ts, m, d) == Advance(ts, m', d')
  {
    hide Advance;
    AdvanceScales(ts, m, d, d');
    AdvanceScales(ts, m', d', d);
    assert d' * m == d * m' && d' * d == d * d';
  }

  /** The step that mul_rational makes of an increment, which is itself narrowed to `int` first. */
  ghost predicate IsStep(step: Rational, incTb: Rational, inc: int) {
    if inc == 1 then step == incTb
    else
      && BestReduction(step, Product(incTb, Rational(ToInt(inc), 1)), INT_MAX)
      && KeepsFitting(step, Product(incTb, Rational(ToInt(inc), 1)), INT_MAX)
  }

  /** avt_add_stable. As long as the product fits an `int`, what counts is the ratio m/d of the step to the timestamp's
      unit, whatever mul_rational makes of it. */
  method AddStable(tsTb: Rational, ts: int, incTb: Rational, inc: int) returns (sum: Stamp)
    requires PositiveTimebase(tsTb) && PositiveTimebase(incTb)
    ensures exists step: Rational :: IsStep(step, incTb, inc) && StepDenominator(tsTb, step) > 0 && sum == AddStep(tsTb, ts, step)
    ensures StepDenominator(tsTb, incTb) > 0
    ensures Abs(incTb.num * inc) <= INT_MAX ==> sum == Advance(ts, inc * StepNumerator(tsTb, incTb), StepDenominator(tsTb, incTb))
  {
    hide Advance;
    var step := incTb;
    if inc != 1 {
      step := MulRational(incTb, Rational(ToInt(inc), 1));
    }
    assert IsStep(step, incTb, inc);
    StepHasDenominator(tsTb, step, incTb, inc);
    ProductSign(incTb.den, tsTb.num);
    sum := AddStep(tsTb, ts, step);
    if Abs(incTb.num * inc) <= INT_MAX {
      StepIsScaled(step, incTb, inc);
      SameRatio(tsTb, step, incTb, inc);
      OnlyRatioMatters(ts, StepNumerator(tsTb, step), StepDenominator(tsTb, step),
                       inc * StepNumerator(tsTb, incTb), StepDenominator(tsTb, incTb));
    }
  }

  lemma SameRatio(tsTb: Rational, step: Rational, incTb: Rational, inc: int)
    requires IsScaledStep(step, incTb, inc)
    ensures StepNumerator(tsTb, step) * StepDenominator(tsTb, incTb) == inc * StepNumerator(tsTb, incTb) * StepDenominator(tsTb, step)
  {
    Associate(inc, incTb.num, tsTb.den);
    CrossProducts(step.num, step.den, incTb.num * inc, incTb.den, tsTb.num, tsTb.den);
  }

  lemma CrossProducts(a: int, b: int, c: int, e: int, x: int, y: int)
    requires a * e == c * b
    ensures (a * y) * (e * x) == (c * y) * (b * x)
  {
    assert (a * y) * (e * x) == (a * e) * (x * y);
    assert (c * y) * (b * x) == (c * b) * (x * y);
  }

  lemma StepHasDenominator(tsTb: Rational, step: Rational, incTb: Rational, inc: int)
    requires PositiveTimebase(tsTb) && PositiveTimebase(incTb) && IsStep(step, incTb, inc)
    ensures 1 <= step.den <= INT_MAX && StepDenominator(tsTb, step) > 0
  {
    assert Product(incTb, Rational(ToInt(inc), 1)).den == incTb.den by { ToIntFits(incTb.den); }
    ProductSign(step.den, tsTb.num);
  }

  /** step == incTb * inc as a fraction. */
  ghost predicate IsScaledStep(step: Rational, incTb: Rational, inc: int) {
    1 <= step.den <= INT_MAX && incTb.num * inc * step.den == step.num * incTb.den
  }

  /** As long as the product fits an `int`, nothing is lost in making the step. */
  lemma StepIsScaled(step: Rational, incTb: Rational, inc: int)
    requires PositiveTimebase(incTb) && IsStep(step, incTb, inc) && Abs(incTb.num * inc) <= INT_MAX
    ensures IsScaledStep(step, incTb, inc)
  {
    hide BestReduction;
    StepHasDenominator(Rational(1, 1), step, incTb, inc);
    if inc != 1 {
      FactorFits(incTb.num, inc);
      ToIntFits(inc);
      ToIntFits(incTb.num * inc);
      ToIntFits(incTb.den);
      SignedProduct(incTb.num * inc, incTb.den);
    }
  }

  lemma FactorFits(a: int, b: int)
    requires a >= 1
    ensures Abs(b) <= Abs(a * b)
  {
    AtLeastOnce(a, Abs(b));
    if b < 0 { assert a * b == -(a * -b); }
  }

  lemma SignedProduct(num: int, den: int)
    requires den > 0
    ensures SignedNumerator(Rational(num, den)) == num
  {
  }

  /** Stepping by inc = 1 and then by inc = -1, whatever the timebases: the way back is undefined when the step is a
      whole number of units, and leads nowhere otherwise. */
  method StepAndBack(tsTb: Rational, ts: int, incTb: Rational) returns (there: Stamp, back: Stamp)
    requires PositiveTimebase(tsTb) && PositiveTimebase(incTb)
    ensures there == AddStep(tsTb, ts, incTb)
    ensures there.Defined? ==>
      back == if StepNumerator(tsTb, incTb) % StepDenominator(tsTb, incTb) == 0 then Undefined else there
  {
    hide Advance;
    there := AddStable(tsTb, ts, incTb, 1);
    back := Undefined;
    if there.Defined? {
      back := AddStable(tsTb, there.ts, incTb, -1);
      ProductSign(incTb.num, tsTb.den);
      StepBack(there.ts, StepNumerator(tsTb, incTb), StepDenominator(tsTb, incTb));
    }
  }

  /** Within one timebase a step of `inc` ticks is exact. */
  lemma SameTimebaseIsExact(tb: Rational, ts: int, inc: nat)
    requires PositiveTimebase(tb) && ts + inc <= INT64_MAX && inc <= INT64_MAX
    ensures StepDenominator(tb, tb) > 0
    ensures Advance(ts, inc * StepNumerator(tb, tb), StepDenominator(tb, tb)) == Defined(ts + inc)
  {
    ProductSign(tb.den, tb.num);
    DivisionUnique(inc * (tb.num * tb.den), tb.den * tb.num, inc, 0);
  }
}
