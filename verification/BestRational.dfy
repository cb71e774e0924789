/** Reducing a fraction to bounded parts with continued fractions (reduce_rational, avt_make_rational, mul_rational). */
module BestRational {
  import opened FixedWidth
  import opened Products
  import opened TimestampOrder
  import opened BinaryGcd

  /** |p/q - n/d| < |r/s - n/d|, with the denominators multiplied out. */
  ghost predicate StrictlyCloser(p: int, q: int, r: int, s: int, n: int, d: int) {
    Abs(p * d - n * q) * s < Abs(r * d - n * s) * q
  }

  ghost predicate NoneCloser(r: int, s: int, n: int, d: int, max: int) {
    forall p: int, q: int :: 0 <= p <= max && 1 <= q <= max ==> !StrictlyCloser(p, q, r, s, n, d)
  }

  /** Two consecutive convergents p0/q0 and p1/q1 of n/d, with the remainders num and den still to be expanded. */
  ghost predicate Convergents(p0: int, q0: int, p1: int, q1: int, num: int, den: int, n: int, d: int, max: int) {
    && 0 <= p0 <= max && 0 <= q0 <= max && 0 <= p1 <= max && 0 <= q1 <= max
    && 0 <= num && 0 <= den
    && n == num * p1 + den * p0
    && d == num * q1 + den * q0
    && Abs(Determinant(p1, q1, p0, q0)) == 1
  }

  function Determinant(p1: int, q1: int, p0: int, q0: int): int { p1 * q0 - p0 * q1 }

  /** The shortened last step: the largest count that keeps both parts of x * a1 + a0 within max. */
  function LastStep(x: int, p0: int, q0: int, p1: int, q1: int, max: int): int
    requires p1 >= 0 && q1 >= 0
  {
    var y := if p1 != 0 then (max - p0) / p1 else x;
    if q1 != 0 then Min(y, (max - q0) / q1) else y
  }

  lemma NextConvergents(p0: int, q0: int, p1: int, q1: int, num: int, den: int, x: int, n: int, d: int, max: int)
    requires Convergents(p0, q0, p1, q1, num, den, n, d, max)
    requires den > 0 && x == num / den && x * p1 + p0 <= max && x * q1 + q0 <= max
    ensures Convergents(p1, q1, x * p1 + p0, x * q1 + q0, den, num - den * x, n, d, max)
    ensures 0 <= num - den * x < den
  {
    QuotientNonNegative(num, den);
    QuotientBounds(num, den);
    NextConvergentsBy(p0, q0, p1, q1, num, den, x, num - den * x, n, d, max);
  }

  lemma NextConvergentsBy(p0: int, q0: int, p1: int, q1: int, num: int, den: int, x: int, rest: int, n: int, d: int,
                          max: int)
    requires Convergents(p0, q0, p1, q1, num, den, n, d, max)
    requires x >= 0 && rest == num - den * x && 0 <= rest && x * p1 + p0 <= max && x * q1 + q0 <= max
    ensures Convergents(p1, q1, x * p1 + p0, x * q1 + q0, den, rest, n, d, max)
  {
    ConvergentStep(p0, q0, p1, q1, num, den, x);
    DeterminantStep(x, p1, q1, p0, q0);
  }

  lemma ConvergentStep(p0: int, q0: int, p1: int, q1: int, num: int, den: int, x: int)
    requires x >= 0 && p1 >= 0 && q1 >= 0
    ensures num * p1 + den * p0 == den * (x * p1 + p0) + (num - den * x) * p1
    ensures num * q1 + den * q0 == den * (x * q1 + q0) + (num - den * x) * q1
    ensures x * p1 >= 0 && x * q1 >= 0
  {
    Expand(den, x, num, p1, p0);
    Expand(den, x, num, q1, q0);
    ProductSign(x, p1);
    ProductSign(x, q1);
  }

  lemma Expand(den: int, x: int, num: int, p1: int, p0: int)
    ensures num * p1 + den * p0 == den * (x * p1 + p0) + (num - den * x) * p1
  {
    Distribute(den, x * p1, p0);
    Distribute(p1, num, den * x);
    Associate(den, x, p1);
  }

  lemma DeterminantStep(x: int, p1: int, q1: int, p0: int, q0: int)
    ensures Determinant(x * p1 + p0, x * q1 + q0, p1, q1) == -Determinant(p1, q1, p0, q0)
    ensures Determinant(p1, q1, x * p1 + p0, x * q1 + q0) == Determinant(p1, q1, p0, q0)
  {
    Combine(x, p1, 1, p0, q1);
    Combine(x, q1, 1, q0, p1);
  }

  /** Convergents are in lowest terms, because a common divisor would divide the determinant. */
  lemma DeterminantCoprime(p: nat, q: nat, r: nat, s: nat)
    requires Abs(Determinant(p, q, r, s)) == 1
    ensures IsGcd(1, p, q)
  {
    assert IsProduct(1, p, p) && IsProduct(1, q, q);
    forall e: nat | CommonDivisor(e, p, q)
      ensures Divides(e, 1)
    {
      var i: nat :| IsProduct(e, i, p);
      var j: nat :| IsProduct(e, j, q);
      var k := i * s - r * j;
      assert e * k == p * s - r * q by {
        assert e * (i * s - r * j) == (e * i) * s - r * (e * j);
      }
      assert Abs(e * k) == 1;
      if k >= 0 {
        assert IsProduct(e, k, 1);
      } else {
        assert e * (-k) == 1 by { assert e * (-k) == -(e * k); assert e * (-k) >= 0; }
        assert IsProduct(e, -k, 1);
      }
    }
  }

  /** The expansion has not produced n/d itself within max: no convergent leaves the remainder zero. */
  ghost predicate NeverRunsOut(n: int, d: int, max: int) {
    forall p0, q0, p1, q1, num :: !Convergents(p0, q0, p1, q1, num, 0, n, d, max)
  }

  lemma RemainderStaysPositive(p0: int, q0: int, p1: int, q1: int, num: int, den: int, n: int, d: int, max: int)
    requires Convergents(p0, q0, p1, q1, num, den, n, d, max) && NeverRunsOut(n, d, max)
    ensures den > 0
  {
  }

  lemma ReducedNeverRunsOut(n: nat, d: nat, max: int)
    requires IsGcd(1, n, d) && (n > max || d > max)
    ensures NeverRunsOut(n, d, max)
  {
    forall p0, q0, p1, q1, num
      ensures !Convergents(p0, q0, p1, q1, num, 0, n, d, max)
    {
      if Convergents(p0, q0, p1, q1, num, 0, n, d, max) {
        assert IsProduct(num, p1, n) && IsProduct(num, q1, d);
        assert CommonDivisor(num, n, d);
        DividesAtMost(num, 1);
      }
    }
  }

  lemma LastStepBounds(x: int, p0: int, q0: int, p1: int, q1: int, max: int)
    requires 0 <= p0 <= max && 0 <= q0 <= max && 0 <= p1 && 0 <= q1
    requires x * p1 + p0 > max || x * q1 + q0 > max
    ensures var y := LastStep(x, p0, q0, p1, q1, max);
      && 0 <= y < x
      && y * p1 + p0 <= max && y * q1 + q0 <= max
      && (y * p1 + p0 + p1 > max || y * q1 + q0 + q1 > max)
  {
    if p1 != 0 { StepWithin(max, p0, p1, x); }
    if q1 != 0 { StepWithin(max, q0, q1, x); }
    var y := LastStep(x, p0, q0, p1, q1, max);
    if p1 != 0 && q1 != 0 {
      var yp, yq := (max - p0) / p1, (max - q0) / q1;
      if yp < yq { MultiplesOrdered(yp, yq, q1); }
      if yq < yp { MultiplesOrdered(yq, yp, p1); }
    }
  }

  lemma StepWithin(max: int, p0: int, p1: int, x: int)
    requires 0 <= p0 <= max && p1 > 0
    ensures var y := (max - p0) / p1;
      0 <= y && y * p1 + p0 <= max < y * p1 + p0 + p1 && (x * p1 + p0 > max ==> y < x)
  {
    var y := (max - p0) / p1;
    QuotientBounds(max - p0, p1);
    if x <= y {
      if x < y { MultiplesOrdered(x, y, p1); }
    }
  }

  /** In the basis of the neighbours a1 and s, any fraction within max has a coefficient below one:
      their mediant is already too big. So it is not strictly between them. */
  lemma OutsideMediant(i: int, j: int, p1: int, q1: int, ps: int, qs: int, p: int, q: int, max: int)
    requires p1 >= 0 && q1 >= 0 && ps >= 0 && qs >= 0
    requires p == i * p1 + j * ps && q == i * q1 + j * qs && p <= max && q <= max
    requires p1 + ps > max || q1 + qs > max
    ensures i <= 0 || j <= 0
  {
    if i >= 1 && j >= 1 {
      AtLeastOnce(i, p1);
      AtLeastOnce(i, q1);
      AtLeastOnce(j, ps);
      AtLeastOnce(j, qs);
    }
  }

  lemma BasisPart(p1: int, ps: int, q1: int, qs: int, p: int, q: int)
    ensures (p * qs - ps * q) * p1 + (p1 * q - p * q1) * ps == p * (p1 * qs - ps * q1)
  {
    Distribute(p1, p * qs, ps * q);
    Distribute(ps, p1 * q, p * q1);
    Distribute(p, p1 * qs, ps * q1);
    Associate(p1, p, qs);
    Associate(ps, q1, p);
    Associate(p1, ps, q);
    Associate(p, p1, qs);
    Associate(p, ps, q1);
    Associate(ps, p1, q);
  }

  lemma InBasis(p1: int, q1: int, ps: int, qs: int, p: int, q: int) returns (i: int, j: int)
    requires Abs(Determinant(p1, q1, ps, qs)) == 1
    ensures p == i * p1 + j * ps && q == i * q1 + j * qs
  {
    var e := Determinant(p1, q1, ps, qs);
    i, j := e * (p * qs - ps * q), e * (p1 * q - p * q1);
    BasisPart(p1, ps, q1, qs, p, q);
    BasisPart(q1, qs, p1, ps, q, p);
    if e == 1 {
    } else {
      assert e == -1;
    }
  }

  /** The distances of the two neighbours from n/d, as integers over d times their denominators. */
  lemma NeighbourErrors(p0: int, q0: int, p1: int, q1: int, num: int, den: int, n: int, d: int, y: int)
    requires n == num * p1 + den * p0 && d == num * q1 + den * q0
    ensures var e := Determinant(p1, q1, p0, q0);
      && p1 * d - n * q1 == e * den
      && (y * p1 + p0) * d - n * (y * q1 + q0) == -e * (num - y * den)
  {
    var e := Determinant(p1, q1, p0, q0);
    NewestError(p0, q0, p1, q1, num, den);
    OlderError(p0, q0, p1, q1, num, den);
    var u, v := p1 * d - n * q1, p0 * d - n * q0;
    CombinedError(y, p1, q1, p0, q0, n, d);
    assert y * (e * den) - e * num == -e * (num - y * den) by {
      Distribute(-e, num, y * den);
      Associate(e, y, den);
      Associate(y, e, den);
    }
  }

  lemma NewestError(p0: int, q0: int, p1: int, q1: int, num: int, den: int)
    ensures p1 * (num * q1 + den * q0) - (num * p1 + den * p0) * q1 == Determinant(p1, q1, p0, q0) * den
  {
    Combine(num, p1, den, p0, q1);
    Combine(num, q1, den, q0, p1);
    Distribute(den, p1 * q0, p0 * q1);
  }

  lemma OlderError(p0: int, q0: int, p1: int, q1: int, num: int, den: int)
    ensures p0 * (num * q1 + den * q0) - (num * p1 + den * p0) * q0 == -Determinant(p1, q1, p0, q0) * num
  {
    Combine(num, p1, den, p0, q0);
    Combine(num, q1, den, q0, p0);
    Distribute(num, p0 * q1, p1 * q0);
  }

  lemma CombinedError(y: int, p1: int, q1: int, p0: int, q0: int, n: int, d: int)
    ensures (y * p1 + p0) * d - n * (y * q1 + q0) == y * (p1 * d - n * q1) + (p0 * d - n * q0)
  {
    Combine(y, p1, 1, p0, d);
    Combine(y, q1, 1, q0, n);
    Distribute(y, p1 * d, n * q1);
  }

  /** A fraction on the far side of either neighbour is at least as far away as that neighbour. */
  lemma FartherThanNeighbour(i: int, j: int, qa: int, qb: int, a: int, b: int, q: int)
    requires qa >= 0 && qb >= 0 && a >= 0 && b >= 0 && i <= 0
    requires q == i * qa + j * qb && q >= 1
    ensures Abs(i * a - j * b) * qb >= b * q
  {
    var m := -i;
    ProductSign(m, qa);
    assert i * qa == -(m * qa) && i * a == -(m * a);
    PositiveFactor(j, qb);
    ProductSign(m, a);
    ProductSign(j, b);
    ProductSign(m * a, qb);
    ProductSign(b, m * qa);
    Distribute(qb, m * a, j * b);
    Distribute(b, j * qb, m * qa);
    assert (j * b) * qb == b * (j * qb);
   }

  /** Scaling a comparison of distances through the better of two neighbours. */
  lemma ChooseNearer(t: int, q: int, ea: int, qa: int, eb: int, qb: int)
    requires t * qb >= eb * q && eb * qa >= ea * qb
    requires q >= 1 && qa >= 0 && qb >= 1
    ensures t * qa >= ea * q
  {
    assert t * qb * qa >= eb * q * qa by { assert (t * qb - eb * q) * qa >= 0; }
    assert eb * qa * q >= ea * qb * q by { assert (eb * qa - ea * qb) * q >= 0; }
    assert eb * q * qa == eb * qa * q && ea * qb * q == (ea * q) * qb && t * qb * qa == (t * qa) * qb;
    assert (t * qa) * qb >= (ea * q) * qb;
    if t * qa < ea * q { MultiplesOrdered(t * qa, ea * q, qb); }
  }

  /** The heart of the matter: at the point where the next convergent would be too big, the test on line 173
      picks the better of the last convergent and the shortened one, and nothing within max beats it. */
  lemma BestAtBreak(p0: int, q0: int, p1: int, q1: int, num: int, den: int, n: int, d: int, x: int, max: int)
    requires Convergents(p0, q0, p1, q1, num, den, n, d, max)
    requires den > 0 && x == num / den && (x * p1 + p0 > max || x * q1 + q0 > max)
    ensures var y := LastStep(x, p0, q0, p1, q1, max);
      if den * (2 * y * q1 + q0) > num * q1
      then y * q1 + q0 >= 1 && NoneCloser(y * p1 + p0, y * q1 + q0, n, d, max)
      else q1 >= 1 && NoneCloser(p1, q1, n, d, max)
  {
    var y := LastStep(x, p0, q0, p1, q1, max);
    var ps, qs := y * p1 + p0, y * q1 + q0;
    var e := Determinant(p1, q1, p0, q0);
    BreakFacts(p0, q0, p1, q1, num, den, n, d, x, max);
    AbsUnit(e, den);
    AbsUnit(e, num - y * den);
    forall p: int, q: int | 0 <= p <= max && 1 <= q <= max
      ensures if (num - y * den) * q1 < den * qs
        then !StrictlyCloser(p, q, ps, qs, n, d) else !StrictlyCloser(p, q, p1, q1, n, d)
    {
      NotCloser(p1, q1, ps, qs, den, num - y * den, e, n, d, p, q, max);
    }
  }

  /** The two candidates straddle n/d, their determinant is a unit, and their mediant is out of range. */
  lemma BreakFacts(p0: int, q0: int, p1: int, q1: int, num: int, den: int, n: int, d: int, x: int, max: int)
    requires Convergents(p0, q0, p1, q1, num, den, n, d, max)
    requires den > 0 && x == num / den && (x * p1 + p0 > max || x * q1 + q0 > max)
    ensures var y := LastStep(x, p0, q0, p1, q1, max);
      var ps, qs, b, e := y * p1 + p0, y * q1 + q0, num - y * den, Determinant(p1, q1, p0, q0);
      && 0 <= y < x && 0 <= ps <= max && 0 <= qs <= max && 0 <= b
      && (p1 + ps > max || q1 + qs > max)
      && e == Determinant(p1, q1, ps, qs)
      && p1 * d - n * q1 == e * den && ps * d - n * qs == -e * b
      && (den * (2 * y * q1 + q0) > num * q1 <==> b * q1 < den * qs)
      && (if b * q1 < den * qs then qs >= 1 else q1 >= 1)
  {
    var y := LastStep(x, p0, q0, p1, q1, max);
    LastStepBounds(x, p0, q0, p1, q1, max);
    QuotientBounds(num, den);
    MultiplesOrdered(y, x, den);
    NeighbourErrors(p0, q0, p1, q1, num, den, n, d, y);
    DeterminantStep(y, p1, q1, p0, q0);
    LineTest(den, y, q1, q0, num);
    ProductSign(y, p1);
    ProductSign(y, q1);
    var b, qs := num - y * den, y * q1 + q0;
    ProductSign(b, q1);
    if b * q1 < den * qs {
      PositiveFactor(qs, den);
    } else {
      FirstStepShortened(p1, q1, q0, p0, num, den, y);
    }
  }

  /** With a1 still 1/0 the test always takes the shortened step. */
  lemma FirstStepShortened(p1: int, q1: int, q0: int, p0: int, num: int, den: int, y: int)
    requires Abs(Determinant(p1, q1, p0, q0)) == 1 && q1 >= 0 && q0 >= 0 && den > 0
    requires den * (2 * y * q1 + q0) <= num * q1
    ensures q1 >= 1
  {
    if q0 >= 1 { AtLeastOnce(q0, den); }
  }

  lemma AbsUnit(e: int, v: int)
    requires Abs(e) == 1 && v >= 0
    ensures Abs(e * v) == v && Abs(-e * v) == v
  {
  }

  lemma UnitFactor(e: int, i: int, a: int)
    requires Abs(e) == 1
    ensures i * (e * a) == if e == 1 then i * a else -(i * a)
  {
    Associate(i, e, a);
  }

  /** The comparison on line 173 is the comparison of the two distances. */
  lemma LineTest(den: int, y: int, q1: int, q0: int, num: int)
    ensures den * (2 * y * q1 + q0) > num * q1 <==> (num - y * den) * q1 < den * (y * q1 + q0)
  {
    assert den * (2 * y * q1 + q0) == den * (y * q1 + q0) + den * (y * q1);
    assert (num - y * den) * q1 == num * q1 - den * (y * q1);
  }

  lemma NotCloser(p1: int, q1: int, ps: int, qs: int, a: int, b: int, e: int, n: int, d: int, p: int, q: int, max: int)
    requires p1 >= 0 && q1 >= 0 && ps >= 0 && qs >= 0 && a >= 0 && b >= 0
    requires Abs(e) == 1 && e == Determinant(p1, q1, ps, qs)
    requires p1 * d - n * q1 == e * a && ps * d - n * qs == -e * b
    requires 0 <= p <= max && 1 <= q <= max && (p1 + ps > max || q1 + qs > max)
    ensures b * q1 < a * qs && qs >= 1 ==> Abs(p * d - n * q) * qs >= b * q
    ensures b * q1 >= a * qs && q1 >= 1 ==> Abs(p * d - n * q) * q1 >= a * q
  {
    var i, j := InBasis(p1, q1, ps, qs, p, q);
    OutsideMediant(i, j, p1, q1, ps, qs, p, q, max);
    var t := i * a - j * b;
    ErrorInBasis(i, j, p1, q1, ps, qs, a, b, e, n, d, p, q);
    if i <= 0 {
      FartherThanNeighbour(i, j, q1, qs, a, b, q);
      if b * q1 >= a * qs && q1 >= 1 {
        CoefficientSign(i, j, q1, qs, q);
        ChooseNearer(Abs(t), q, a, q1, b, qs);
      }
    } else {
      FartherThanNeighbour(j, i, qs, q1, b, a, q);
      if b * q1 < a * qs && qs >= 1 {
        CoefficientSign(j, i, qs, q1, q);
        ChooseNearer(Abs(t), q, b, qs, a, q1);
      }
    }
  }

  lemma CoefficientSign(i: int, j: int, qa: int, qb: int, q: int)
    requires i <= 0 && qa >= 0 && qb >= 0 && q == i * qa + j * qb && q >= 1
    ensures qb >= 1
  {
    ProductSign(i, qa);
  }

  lemma ErrorInBasis(i: int, j: int, p1: int, q1: int, ps: int, qs: int,
                     a: int, b: int, e: int, n: int, d: int, p: int, q: int)
    requires p == i * p1 + j * ps && q == i * q1 + j * qs && Abs(e) == 1
    requires p1 * d - n * q1 == e * a && ps * d - n * qs == -e * b
    ensures Abs(p * d - n * q) == Abs(i * a - j * b) == Abs(j * b - i * a)
  {
    ErrorSplits(i, j, p1, q1, ps, qs, n, d);
    UnitFactor(e, i, a);
    UnitFactor(-e, j, b);
  }

  lemma ErrorSplits(i: int, j: int, p1: int, q1: int, ps: int, qs: int, n: int, d: int)
    ensures (i * p1 + j * ps) * d - n * (i * q1 + j * qs) == i * (p1 * d - n * q1) + j * (ps * d - n * qs)
  {
    Combine(i, p1, j, ps, d);
    Combine(i, q1, j, qs, n);
    Distribute(i, p1 * d, n * q1);
    Distribute(j, ps * d, n * qs);
  }

  /** No product of the loop leaves 64 bits: each is at most twice a part of the reduced input. */
  lemma ProductsFit(p0: int, q0: int, p1: int, q1: int, num: int, den: int, n: int, d: int, x: int, max: int)
    requires Convergents(p0, q0, p1, q1, num, den, n, d, max)
    requires den > 0 && x == num / den
    ensures 0 <= x * p1 + p0 <= n && 0 <= x * q1 + q0 <= d
    ensures forall y :: 0 <= y <= x ==> 0 <= den * (2 * y * q1 + q0) <= 2 * d
    ensures 0 <= num * q1 <= d
  {
    QuotientBounds(num, den);
    PartFits(den, x, num, p1, p0);
    PartFits(den, x, num, q1, q0);
    ProductSign(num, q1);
    ProductSign(den, q0);
    forall y | 0 <= y <= x
      ensures 0 <= den * (2 * y * q1 + q0) <= 2 * d
    {
      DoubledStepFits(den, x, y, q1, q0, d);
    }
  }

  lemma PartFits(den: int, x: int, num: int, p1: int, p0: int)
    requires den > 0 && x >= 0 && p1 >= 0 && p0 >= 0 && den * x <= num
    ensures 0 <= x * p1 + p0 && den * (x * p1 + p0) <= num * p1 + den * p0
    ensures x * p1 + p0 <= num * p1 + den * p0
  {
    Expand(den, x, num, p1, p0);
    ProductSign(num - den * x, p1);
    ProductSign(x, p1);
    AtLeastOnce(den, x * p1 + p0);
  }

  lemma DoubledStepFits(den: int, x: int, y: int, q1: int, q0: int, d: int)
    requires den > 0 && 0 <= y <= x && q1 >= 0 && q0 >= 0 && den * (x * q1 + q0) <= d
    ensures 0 <= den * (2 * y * q1 + q0) <= 2 * d
  {
    var u, v := 2 * y * q1 + q0, 2 * (x * q1 + q0);
    assert 0 <= u <= v by {
      ProductSign(y, q1);
      ProductSign(x - y, q1);
      assert (x - y) * q1 == x * q1 - y * q1;
      assert 2 * y * q1 == 2 * (y * q1);
    }
    ScaleOrder(den, 0, u);
    ScaleOrder(den, u, v);
    DoubleFactor(den, x * q1 + q0);
  }

  lemma DoubleFactor(a: int, b: int)
    ensures a * (2 * b) == 2 * (a * b)
  {
  }

  /** The numerator of a fraction, moved over a non-negative denominator. */
  function SignedNumerator(x: Rational): int {
    if (x.num < 0) != (x.den < 0) then -(Abs(x.num) as int) else Abs(x.num)
  }

  /** `NoneCloser` for competitors and targets of either sign. */
  ghost predicate NoneCloserSigned(r: int, s: int, n: int, d: int, max: int) {
    forall p: int, q: int {:trigger StrictlyCloser(p, q, r, s, n, d)} ::
      Abs(p) <= max && 1 <= q <= max ==> !StrictlyCloser(p, q, r, s, n, d)
  }

  lemma SignedNoneCloser(r: int, s: int, n: int, d: int, max: int, sign: int)
    requires r >= 0 && s >= 1 && n >= 0 && d >= 1 && NoneCloser(r, s, n, d, max) && Abs(sign) == 1
    ensures NoneCloserSigned(sign * r, s, sign * n, d, max)
  {
    forall p: int, q: int {:trigger StrictlyCloser(p, q, sign * r, s, sign * n, d)} | Abs(p) <= max && 1 <= q <= max
      ensures !StrictlyCloser(p, q, sign * r, s, sign * n, d)
    {
      assert !StrictlyCloser(Abs(p), q, r, s, n, d);
      SignedCloser(p, q, r, s, n, d, sign);
    }
  }

  lemma SignedCloser(p: int, q: int, r: int, s: int, n: int, d: int, sign: int)
    requires r >= 0 && s >= 1 && n >= 0 && d >= 1 && q >= 1 && Abs(sign) == 1
    requires !StrictlyCloser(Abs(p), q, r, s, n, d)
    ensures !StrictlyCloser(p, q, sign * r, s, sign * n, d)
  {
    ReverseTriangle(p, d, n, q, sign);
    var near, far := Abs(Abs(p) * d - n * q), Abs(p * d - sign * n * q);
    ProductsOrdered(near, s, far, s);
    SignedDistance(r, s, n, d, sign);
  }

  lemma SignedDistance(r: int, s: int, n: int, d: int, sign: int)
    requires Abs(sign) == 1
    ensures Abs(sign * r * d - sign * n * s) == Abs(r * d - n * s)
  {
    Associate(sign, r, d);
    Associate(sign, n, s);
  }

  lemma ReverseTriangle(p: int, d: int, n: int, q: int, sign: int)
    requires d >= 0 && n >= 0 && q >= 0 && Abs(sign) == 1
    ensures Abs(Abs(p) * d - n * q) <= Abs(p * d - sign * n * q)
  {
    ProductSign(n, q);
    ProductSign(Abs(p), d);
    Associate(sign, n, q);
    assert p >= 0 || p * d == -(Abs(p) * d);
  }

  /** Distances do not care whether the target was reduced first. */
  lemma NoneCloserScales(r: int, s: int, n: int, d: int, max: int, g: int)
    requires g >= 1 && NoneCloser(r, s, n, d, max)
    ensures NoneCloser(r, s, g * n, g * d, max)
  {
    forall p: int, q: int | 0 <= p <= max && 1 <= q <= max
      ensures !StrictlyCloser(p, q, r, s, g * n, g * d)
    {
      assert !StrictlyCloser(p, q, r, s, n, d);
      ScaledDistance(p, q, n, d, g);
      ScaledDistance(r, s, n, d, g);
      var u, v := Abs(p * d - n * q), Abs(r * d - n * s);
      Associate(g, u, s);
      Associate(g, v, q);
      ScaleOrder(g, u * s, v * q);
    }
  }

  lemma ScaledDistance(p: int, q: int, n: int, d: int, g: int)
    requires g >= 1
    ensures Abs(p * (g * d) - (g * n) * q) == g * Abs(p * d - n * q)
  {
    Associate(g, d, p);
    Associate(g, n, q);
    Distribute(g, p * d, n * q);
    ProductSign(g, Abs(p * d - n * q));
  }

  /** What the loop leaves in a1 for the reduced, non-negative input n/d. */
  ghost predicate Reduced(a: Rational, n: nat, d: nat, max: int) {
    && 0 <= a.num <= max && 0 <= a.den <= max
    && (if n <= max && d <= max then a == Rational(n, d)
        else a.den >= 1 && IsGcd(1, a.num, a.den) && NoneCloser(a.num, a.den, n, d, max))
  }

  lemma BreakReduced(p0: int, q0: int, p1: int, q1: int, num: int, den: int, n: nat, d: nat, x: int, max: int)
    requires Convergents(p0, q0, p1, q1, num, den, n, d, max) && (n > max || d > max)
    requires den > 0 && x == num / den && (x * p1 + p0 > max || x * q1 + q0 > max)
    ensures var y := LastStep(x, p0, q0, p1, q1, max);
      && 0 <= den * (2 * y * q1 + q0) <= 2 * d && 0 <= num * q1 <= d
      && Reduced(if den * (2 * y * q1 + q0) > num * q1 then Rational(y * p1 + p0, y * q1 + q0) else Rational(p1, q1), n, d, max)
  {
    var y := LastStep(x, p0, q0, p1, q1, max);
    BreakFacts(p0, q0, p1, q1, num, den, n, d, x, max);
    BestAtBreak(p0, q0, p1, q1, num, den, n, d, x, max);
    ProductsFit(p0, q0, p1, q1, num, den, n, d, x, max);
    if den * (2 * y * q1 + q0) > num * q1 {
      assert Determinant(y * p1 + p0, y * q1 + q0, p1, q1) == -Determinant(p1, q1, y * p1 + p0, y * q1 + q0);
      DeterminantCoprime(y * p1 + p0, y * q1 + q0, p1, q1);
    } else {
      DeterminantCoprime(p1, q1, p0, q0);
    }
  }

  /** The contract of reduce_rational. */
  ghost predicate BestReduction(r: Rational, input: Rational, max: int) {
    && Abs(r.num) <= max && 0 <= r.den <= max
    && (input.num != 0 || input.den != 0 ==> IsGcd(1, Abs(r.num), r.den))
    && (input.den != 0 ==> r.den >= 1 && NoneCloserSigned(r.num, r.den, SignedNumerator(input), Abs(input.den), max))
  }

  /** g is the gcd of the input and the reduced input fits. */
  ghost predicate FitsReduced(input: Rational, g: nat, max: int) {
    IsGcd(g, Abs(input.num), Abs(input.den)) && Abs(input.num) <= g * max && Abs(input.den) <= g * max
  }

  /** An input whose reduced form fits is returned in exactly that form. */
  ghost predicate KeepsFitting(r: Rational, input: Rational, max: int) {
    && (forall g: nat :: FitsReduced(input, g, max) ==> SignedNumerator(input) == r.num * g && Abs(input.den) == r.den * g)
    && (Abs(input.num) <= max && Abs(input.den) <= max ==> SignedNumerator(input) * r.den == r.num * Abs(input.den))
  }

  lemma ReductionDone(r: Rational, a: Rational, input: Rational, g: nat, n: nat, d: nat, max: int, sign: int)
    requires r == Rational(if sign < 0 then -a.num else a.num, a.den)
    requires Abs(input.num) == g * n && Abs(input.den) == g * d && max >= 1 && Abs(sign) == 1
    requires sign == if (input.num < 0) != (input.den < 0) then -1 else 1
    requires IsGcd(g, Abs(input.num), Abs(input.den)) && (g > 0 ==> IsGcd(1, n, d)) && (g == 0 ==> n == d == 0)
    requires Reduced(a, n, d, max)
    ensures BestReduction(r, input, max)
    ensures KeepsFitting(r, input, max)
  {
    ReductionKeepsFitting(r, a, input, g, n, d, max, sign);
    if input.den != 0 {
      PositiveFactor(d, g);
      if a == Rational(n, d) { ExactIsBest(n, d, max); }
      NoneCloserScales(a.num, a.den, n, d, max, g);
      SignedNoneCloser(a.num, a.den, g * n, g * d, max, sign);
    }
  }

  lemma ReductionKeepsFitting(r: Rational, a: Rational, input: Rational, g: nat, n: nat, d: nat, max: int, sign: int)
    requires r == Rational(if sign < 0 then -a.num else a.num, a.den)
    requires Abs(input.num) == g * n && Abs(input.den) == g * d && max >= 1 && Abs(sign) == 1
    requires sign == if (input.num < 0) != (input.den < 0) then -1 else 1
    requires IsGcd(g, Abs(input.num), Abs(input.den)) && (g == 0 ==> n == d == 0)
    requires Reduced(a, n, d, max)
    ensures KeepsFitting(r, input, max)
  {
    forall h: nat | FitsReduced(input, h, max)
      ensures SignedNumerator(input) == r.num * h && Abs(input.den) == r.den * h
    {
      GcdUnique(g, h, Abs(input.num), Abs(input.den));
      if g > 0 {
        ScaleOrder(g, max, n);
        ScaleOrder(g, max, d);
      }
      assert -(n as int) * g == -(g * n);
    }
    if Abs(input.num) <= max && Abs(input.den) <= max {
      SmallInputKept(r, a, g, n, d, max, sign);
    }
  }

  lemma SmallInputKept(r: Rational, a: Rational, g: nat, n: nat, d: nat, max: int, sign: int)
    requires r == Rational(if sign < 0 then -a.num else a.num, a.den) && Abs(sign) == 1
    requires g * n <= max && g * d <= max && (g == 0 ==> n == d == 0) && max >= 1 && Reduced(a, n, d, max)
    ensures (if sign < 0 then -(g * n) else g * n) * r.den == r.num * (g * d)
  {
    if g > 0 {
      AtLeastOnce(g, n);
      AtLeastOnce(g, d);
    }
    assert g * n * d == n * (g * d);
    assert -(g * n) * d == (-(n as int)) * (g * d);
  }

  lemma ExactIsBest(n: nat, d: nat, max: int)
    ensures NoneCloser(n, d, n, d, max)
  {
    forall p: int, q: int | 0 <= p <= max && 1 <= q <= max
      ensures !StrictlyCloser(p, q, n, d, n, d)
    {
      ProductSign(Abs(p * d - n * q), d);
    }
  }

  /** The value the continued-fraction loop ends with, from any of its states. */
  function Expansion(p0: int, q0: int, p1: int, q1: int, num: int, den: int, max: int): Rational
    requires p1 >= 0 && q1 >= 0 && p0 >= 0 && q0 >= 0 && num >= 0 && den >= 0
    decreases den
  {
    if den == 0 then
      Rational(p1, q1)
    else
      var x := num / den;
      var rest := num % den;
      if x * p1 + p0 > max || x * q1 + q0 > max then
        var y := LastStep(x, p0, q0, p1, q1, max);
        if den * (2 * y * q1 + q0) > num * q1 then Rational(y * p1 + p0, y * q1 + q0) else Rational(p1, q1)
      else
        ProductSign(x, p1);
        ProductSign(x, q1);
        Expansion(p1, q1, x * p1 + p0, x * q1 + q0, den, rest, max)
  }

  lemma {:induction false} ExpansionIsBest(p0: int, q0: int, p1: int, q1: int, num: int, den: int, n: nat, d: nat,
                                           max: int)
    requires Convergents(p0, q0, p1, q1, num, den, n, d, max)
    requires NeverRunsOut(n, d, max) && (n > max || d > max)
    ensures Reduced(Expansion(p0, q0, p1, q1, num, den, max), n, d, max)
    decreases den
  {
    RemainderStaysPositive(p0, q0, p1, q1, num, den, n, d, max);
    var x := num / den;
    if x * p1 + p0 > max || x * q1 + q0 > max {
      BreakReduced(p0, q0, p1, q1, num, den, n, d, x, max);
    } else {
      var p2, q2, rest := ExpansionStep(p0, q0, p1, q1, num, den, n, d, max);
      ExpansionIsBest(p1, q1, p2, q2, den, rest, n, d, max);
    }
  }

  lemma ExpansionStep(p0: int, q0: int, p1: int, q1: int, num: int, den: int, n: int, d: int, max: int)
    returns (p2: int, q2: int, rest: int)
    requires Convergents(p0, q0, p1, q1, num, den, n, d, max) && den > 0
    requires num / den * p1 + p0 <= max && num / den * q1 + q0 <= max
    ensures 0 <= rest < den && Convergents(p1, q1, p2, q2, den, rest, n, d, max)
    ensures Expansion(p0, q0, p1, q1, num, den, max) == Expansion(p1, q1, p2, q2, den, rest, max)
  {
    var x := num / den;
    p2, q2, rest := x * p1 + p0, x * q1 + q0, num - den * x;
    assert rest == num % den;
    NextConvergents(p0, q0, p1, q1, num, den, x, n, d, max);
  }

  /** The continued-fraction loop of reduce_rational, lines 163-182. */
  method Approximate(n: nat, d: nat, max: int) returns (a1: Rational)
    requires max >= 1
    ensures a1 == Expansion(0, 1, 1, 0, n, d, max)
  {
    var a0 := Rational(0, 1);
    a1 := Rational(1, 0);
    var num: nat, den: nat := n, d;
    while den != 0
      invariant a0.num >= 0 && a0.den >= 0 && a1.num >= 0 && a1.den >= 0
      invariant Expansion(a0.num, a0.den, a1.num, a1.den, num, den, max) == Expansion(0, 1, 1, 0, n, d, max)
      decreases den
    {
      var x := num / den;
      QuotientBounds(num, den);
      QuotientNonNegative(num, den);
      var nextDen := num - den * x;
      var a2n, a2d := x * a1.num + a0.num, x * a1.den + a0.den;
      ProductSign(x, a1.num);
      ProductSign(x, a1.den);
      if a2n > max || a2d > max {
        if a1.num != 0 {
          x := (max - a0.num) / a1.num;
        }
        if a1.den != 0 {
          x := Min(x, (max - a0.den) / a1.den);
        }
        if den * (2 * x * a1.den + a0.den) > num * a1.den {
          a1 := Rational(x * a1.num + a0.num, x * a1.den + a0.den);
        }
        break;
      }
      a0 := a1;
      a1 := Rational(a2n, a2d);
      num := den;
      den := nextDen;
    }
  }

  /** reduce_rational: lowest terms within max; the input itself whenever its reduced form fits,
      and otherwise a fraction that no other one within max approaches more closely. */
  method ReduceRational(input: Rational, max: int) returns (r: Rational)
    requires IsInt(input.num) && IsInt(input.den) && 1 <= max <= INT_MAX
    ensures BestReduction(r, input, max)
    ensures KeepsFitting(r, input, max)
  {
    var sign := (input.num < 0) != (input.den < 0);
    var num, den := Abs(input.num), Abs(input.den);
    var gcd := GcdAB(num, den);
    if gcd != 0 {
      QuotientsCoprime(gcd, num, den);
      num, den := num / gcd, den / gcd;
    }
    ReducedInputFits(num, den, gcd, Abs(input.num), Abs(input.den));
    var a1 := Rational(num, den);
    if !(num <= max && den <= max) {
      ReducedNeverRunsOut(num, den, max);
      ExpansionIsBest(0, 1, 1, 0, num, den, num, den, max);
      a1 := Approximate(num, den, max);
    }
    r := Rational(if sign then -a1.num else a1.num, a1.den);
    ReductionDone(r, a1, input, gcd, num, den, max, if sign then -1 else 1);
  }

  lemma ReducedInputFits(n: nat, d: nat, g: nat, inputNum: nat, inputDen: nat)
    requires IsGcd(g, inputNum, inputDen)
    requires if g != 0 then g * n == inputNum && g * d == inputDen && IsGcd(1, n, d) else n == inputNum && d == inputDen
    ensures n <= inputNum && d <= inputDen && (g == 0 ==> n == d == 0)
    ensures inputNum == g * n && inputDen == g * d
    ensures n > 0 || d > 0 ==> IsGcd(1, n, d)
  {
    if g > 0 {
      AtLeastOnce(g, n);
      AtLeastOnce(g, d);
    }
  }

  /** avt_make_rational */
  method MakeRational(num: int, den: int) returns (r: Rational)
    requires IsInt(num) && IsInt(den)
    ensures BestReduction(r, Rational(num, den), INT_MAX)
    ensures KeepsFitting(r, Rational(num, den), INT_MAX)
  {
    r := ReduceRational(Rational(num, den), INT_MAX);
  }

  /** What mul_rational reduces: each product is formed in 64 bits and then narrowed to `int`. */
  function Product(b: Rational, c: Rational): Rational {
    Rational(ToInt(b.num * c.num), ToInt(b.den * c.den))
  }

  /** mul_rational */
  method MulRational(b: Rational, c: Rational) returns (r: Rational)
    ensures BestReduction(r, Product(b, c), INT_MAX)
    ensures KeepsFitting(r, Product(b, c), INT_MAX)
  {
    ToIntFits(b.num * c.num);
    ToIntFits(b.den * c.den);
    r := ReduceRational(Product(b, c), INT_MAX);
  }
}
