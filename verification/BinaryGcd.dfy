/** Stein's binary greatest common divisor over 64-bit unsigned values (gcd_ab). */
module BinaryGcd {
  import opened FixedWidth
  import opened Products

  ghost predicate IsProduct(d: nat, k: nat, n: nat) { d * k == n }

  ghost predicate Divides(d: nat, n: nat) { exists k: nat :: IsProduct(d, k, n) }

  ghost predicate CommonDivisor(d: nat, a: nat, b: nat) { Divides(d, a) && Divides(d, b) }

  /** The greatest common divisor in the order of divisibility, which makes gcd(0, 0) zero. */
  ghost predicate IsGcd(g: nat, a: nat, b: nat) {
    CommonDivisor(g, a, b) && forall d: nat :: CommonDivisor(d, a, b) ==> Divides(d, g)
  }

  ghost predicate SameCommonDivisors(a: nat, b: nat, c: nat, d: nat) {
    forall e: nat :: CommonDivisor(e, a, b) <==> CommonDivisor(e, c, d)
  }

  /** stdc_trailing_zeros on a non-zero word. */
  function TrailingZeros(n: nat): nat
    requires n > 0
  {
    if n % 2 == 1 then 0 else 1 + TrailingZeros(n / 2)
  }

  function ShiftRight(n: nat, k: nat): (m: nat)
    ensures m <= n
  {
    if k == 0 then n else ShiftRight(n / 2, k - 1)
  }

  function ShiftLeft(n: nat, k: nat): nat {
    if k == 0 then n else 2 * ShiftLeft(n, k - 1)
  }

  lemma DividesZeroAndSelf(d: nat)
    ensures Divides(d, 0) && Divides(d, d)
  {
    assert IsProduct(d, 0, 0) && IsProduct(d, 1, d);
  }

  lemma DividesAtMost(d: nat, n: nat)
    requires n > 0 && Divides(d, n)
    ensures 0 < d <= n
  {
    var k: nat :| IsProduct(d, k, n);
    assert k >= 1;
    assert d * k == d + d * (k - 1) && d * (k - 1) >= 0;
  }

  lemma DividesSum(d: nat, a: nat, b: nat)
    requires Divides(d, a)
    ensures Divides(d, b) ==> Divides(d, a + b)
    ensures Divides(d, a + b) ==> Divides(d, b)
  {
    var i: nat :| IsProduct(d, i, a);
    if Divides(d, b) {
      var j: nat :| IsProduct(d, j, b);
      assert IsProduct(d, i + j, a + b);
    }
    if Divides(d, a + b) {
      var j: nat :| IsProduct(d, j, a + b);
      if d == 0 {
        assert IsProduct(d, 0, b);
      } else {
        assert d * (j - i) == b;
        assert j >= i;
        assert IsProduct(d, j - i, b);
      }
    }
  }

  lemma OddTimesOdd(x: nat, y: nat)
    requires x % 2 == 1 && y % 2 == 1
    ensures (x * y) % 2 == 1
  {
    var i, j := x / 2, y / 2;
    assert x == 2 * i + 1 && y == 2 * j + 1;
    Distribute(x, 2 * j, 1);
    Associate(x, 2, j);
    Associate(2, x, j);
    assert x * y == 2 * (x * j + i) + 1;
  }

  lemma OddDivisorCancelsTwo(d: nat, n: nat)
    requires d % 2 == 1
    ensures Divides(d, 2 * n) <==> Divides(d, n)
  {
    if Divides(d, n) {
      var k: nat :| IsProduct(d, k, n);
      assert IsProduct(d, 2 * k, 2 * n) by { Associate(d, 2, k); }
    }
    if Divides(d, 2 * n) {
      var k: nat :| IsProduct(d, k, 2 * n);
      if k % 2 == 1 { OddTimesOdd(d, k); }
      assert IsProduct(d, k / 2, n) by { assert k == 2 * (k / 2); assert d * (2 * (k / 2)) == 2 * (d * (k / 2)); }
    }
  }

  lemma EvenDivisorHalves(d: nat, n: nat)
    ensures Divides(2 * d, 2 * n) <==> Divides(d, n)
  {
    if Divides(d, n) {
      var k: nat :| IsProduct(d, k, n);
      assert IsProduct(2 * d, k, 2 * n) by { assert (2 * d) * k == 2 * (d * k); }
    }
    if Divides(2 * d, 2 * n) {
      var k: nat :| IsProduct(2 * d, k, 2 * n);
      assert IsProduct(d, k, n) by { assert (2 * d) * k == 2 * (d * k); }
    }
  }

  lemma EvenProduct(h: nat, k: nat)
    ensures (2 * h * k) % 2 == 0
  {
    assert 2 * h * k == 2 * (h * k);
  }

  lemma DivisorOfOddIsOdd(d: nat, n: nat)
    requires n % 2 == 1 && Divides(d, n)
    ensures d % 2 == 1
  {
    var k: nat :| IsProduct(d, k, n);
    if d % 2 == 0 { EvenProduct(d / 2, k); }
  }

  /** Dropping the trailing zeros leaves an odd number, and multiplying them back restores the word. */
  lemma OddPart(n: nat)
    requires n > 0
    ensures ShiftRight(n, TrailingZeros(n)) % 2 == 1
    ensures ShiftLeft(ShiftRight(n, TrailingZeros(n)), TrailingZeros(n)) == n
  {
    if n % 2 == 0 { OddPart(n / 2); }
  }

  lemma ExactQuotient(q: nat, d: nat)
    requires d > 0
    ensures (q * d) / d == q
  {
    DivisionUnique(q * d, d, q, 0);
  }

  /** With one odd member, the twos of the other do not take part in the common divisors. */
  lemma {:induction false} OddPairIgnoresTwos(u: nat, w: nat, z: nat)
    requires u % 2 == 1
    ensures SameCommonDivisors(u, ShiftLeft(w, z), u, w)
  {
    if z > 0 {
      OddPairIgnoresTwos(u, w, z - 1);
      var h := ShiftLeft(w, z - 1);
      forall e: nat
        ensures CommonDivisor(e, u, 2 * h) <==> CommonDivisor(e, u, h)
      {
        if Divides(e, u) {
          DivisorOfOddIsOdd(e, u);
          OddDivisorCancelsTwo(e, h);
        }
      }
    }
  }

  lemma SubtractKeepsDivisors(u: nat, v: nat)
    requires u <= v
    ensures SameCommonDivisors(u, v, u, v - u)
  {
    forall e: nat
      ensures CommonDivisor(e, u, v) <==> CommonDivisor(e, u, v - u)
    {
      if Divides(e, u) { DividesSum(e, u, v - u); }
    }
  }

  lemma SameDivisorsSameGcd(g: nat, a: nat, b: nat, c: nat, d: nat)
    requires SameCommonDivisors(a, b, c, d)
    ensures IsGcd(g, a, b) <==> IsGcd(g, c, d)
  {
  }

  /** Putting the common power of two back: gcd(2^k * x, 2^k * y) == 2^k * gcd(x, y) when x or y is odd. */
  lemma {:induction false} GcdTimesPow2(g: nat, x: nat, y: nat, k: nat)
    requires IsGcd(g, x, y) && (x % 2 == 1 || y % 2 == 1)
    ensures IsGcd(ShiftLeft(g, k), ShiftLeft(x, k), ShiftLeft(y, k))
  {
    if k > 0 {
      GcdTimesPow2(g, x, y, k - 1);
      var g', x', y' := ShiftLeft(g, k - 1), ShiftLeft(x, k - 1), ShiftLeft(y, k - 1);
      EvenDivisorHalves(g', x');
      EvenDivisorHalves(g', y');
      forall e: nat | CommonDivisor(e, 2 * x', 2 * y')
        ensures Divides(e, 2 * g')
      {
        if e % 2 == 0 {
          EvenDivisorHalves(e / 2, x');
          EvenDivisorHalves(e / 2, y');
          EvenDivisorHalves(e / 2, g');
        } else {
          OddDivisorCancelsTwo(e, x');
          OddDivisorCancelsTwo(e, y');
          OddDivisorCancelsTwo(e, g');
        }
      }
    }
  }

  lemma GcdUnique(g: nat, h: nat, a: nat, b: nat)
    requires IsGcd(g, a, b) && IsGcd(h, a, b)
    ensures g == h
  {
    assert Divides(g, h) && Divides(h, g);
    if g > 0 && h > 0 {
      DividesAtMost(g, h);
      DividesAtMost(h, g);
    }
  }

  /** One turn of the loop: the pair stays odd, its common divisors stay the same, and the larger member shrinks. */
  lemma SubtractAndShift(u: nat, v: nat)
    requires u % 2 == 1 && v % 2 == 1 && u < v
    ensures var w := ShiftRight(v - u, TrailingZeros(v - u));
      w % 2 == 1 && w < v && SameCommonDivisors(u, w, u, v)
  {
    var n: nat := v - u;
    var z := TrailingZeros(n);
    var w := ShiftRight(n, z);
    OddPart(n);
    SubtractKeepsDivisors(u, v);
    assert SameCommonDivisors(u, n, u, w) by { OddPairIgnoresTwos(u, w, z); }
    forall e: nat ensures CommonDivisor(e, u, w) <==> CommonDivisor(e, u, v) {
      assert CommonDivisor(e, u, n) <==> CommonDivisor(e, u, w);
    }
  }

  /** gcd_ab. The returned value is the greatest common divisor for every pair, (0, 0) included. */
  method GcdAB(a: nat, b: nat) returns (g: nat)
    requires a < TWO_TO_64 && b < TWO_TO_64
    ensures IsGcd(g, a, b) && g < TWO_TO_64
  {
    DividesZeroAndSelf(a);
    DividesZeroAndSelf(b);
    if a == 0 {
      return b;
    } else if b == 0 {
      return a;
    }
    var za, zb := TrailingZeros(a), TrailingZeros(b);
    var k := if za <= zb then za else zb;
    var u: nat, v: nat := ShiftRight(a, za), ShiftRight(b, zb);
    OddPart(a);
    OddPart(b);
    ghost var u0, v0 := u, v;
    while u != v
      invariant u % 2 == 1 && v % 2 == 1
      invariant SameCommonDivisors(u, v, u0, v0)
      decreases u + v
    {
      if u > v {
        u, v := v, u;
      }
      SubtractAndShift(u, v);
      v := v - u;
      v := ShiftRight(v, TrailingZeros(v));
    }
    DividesZeroAndSelf(u);
    assert IsGcd(u, u, v);
    SameDivisorsSameGcd(u, u, v, u0, v0);
    ScaledBack(u, a, b, u0, v0, za, zb, k);
    g := ShiftLeft(u, k);
    DividesAtMost(g, a);
  }

  /** From the gcd of the odd parts to the gcd of the original words. */
  lemma ScaledBack(g: nat, a: nat, b: nat, u0: nat, v0: nat, za: nat, zb: nat, k: nat)
    requires u0 % 2 == 1 && v0 % 2 == 1 && IsGcd(g, u0, v0) && IsGcd(g, v0, u0)
    requires a == ShiftLeft(u0, za) && b == ShiftLeft(v0, zb) && k == (if za <= zb then za else zb)
    ensures IsGcd(ShiftLeft(g, k), a, b)
  {
    if za <= zb {
      FewerTwosFirst(g, u0, v0, za, zb);
    } else {
      FewerTwosFirst(g, v0, u0, zb, za);
    }
  }

  lemma FewerTwosFirst(g: nat, u0: nat, v0: nat, za: nat, zb: nat)
    requires u0 % 2 == 1 && v0 % 2 == 1 && IsGcd(g, u0, v0) && za <= zb
    ensures IsGcd(ShiftLeft(g, za), ShiftLeft(u0, za), ShiftLeft(v0, zb))
  {
    var w := ShiftLeft(v0, zb - za);
    OddPairIgnoresTwos(u0, v0, zb - za);
    assert IsGcd(g, u0, w);
    GcdTimesPow2(g, u0, w, za);
    ShiftsAdd(v0, zb - za, za);
  }

  lemma {:induction false} ShiftsAdd(n: nat, i: nat, j: nat)
    ensures ShiftLeft(ShiftLeft(n, i), j) == ShiftLeft(n, i + j)
  {
    if j > 0 {
      ShiftsAdd(n, i, j - 1);
    }
  }

  /** Dividing both numbers by their gcd leaves no common divisor but one. */
  lemma QuotientsCoprime(g: nat, a: nat, b: nat)
    requires IsGcd(g, a, b) && g > 0
    ensures g * (a / g) == a && g * (b / g) == b && IsGcd(1, a / g, b / g)
  {
    var i: nat :| IsProduct(g, i, a);
    var j: nat :| IsProduct(g, j, b);
    ExactQuotient(i, g);
    ExactQuotient(j, g);
    assert IsProduct(1, i, i) && IsProduct(1, j, j);
    forall d: nat | CommonDivisor(d, i, j)
      ensures Divides(d, 1)
    {
      var x: nat :| IsProduct(d, x, i);
      var y: nat :| IsProduct(d, y, j);
      assert IsProduct(d * g, x, a) by { assert (d * g) * x == g * (d * x); }
      assert IsProduct(d * g, y, b) by { assert (d * g) * y == g * (d * y); }
      DividesAtMost(d * g, g);
      if d > 1 { MultiplesOrdered(1, d, g); }
      DividesZeroAndSelf(1);
    }
  }
}
