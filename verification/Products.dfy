/** The few facts about products and quotients the proofs are built from, each stated for one step. */
module Products {

  lemma Distribute(a: int, b: int, c: int)
    ensures a * (b + c) == a * b + a * c && a * (b - c) == a * b - a * c
    ensures (b + c) * a == b * a + c * a && (b - c) * a == b * a - c * a
  {
  }

  /** Comparing multiples of d compares the factors. */
  lemma FactorAtMost(a: int, b: int, d: int)
    requires d > 0 && a * d < b * d + d
    ensures a <= b
  {
    if a > b { MultiplesOrdered(b, a, d); }
  }

  lemma Associate(a: int, b: int, c: int)
    ensures (a * b) * c == a * (b * c)
  {
  }

  lemma ProductSign(x: int, y: int)
    ensures x >= 0 && y >= 0 ==> x * y >= 0
    ensures x <= 0 && y >= 0 ==> x * y <= 0
    ensures x > 0 && y > 0 ==> x * y > 0
  {
  }

  lemma MultiplesOrdered(p: int, q: int, d: int)
    requires d >= 0 && p < q
    ensures p * d + d <= q * d
  {
    ProductSign(q - p - 1, d);
    Distribute(d, q - p - 1, 1);
    Distribute(d, q, p);
  }

  lemma AtLeastOnce(i: int, x: int)
    requires i >= 1 && x >= 0
    ensures i * x >= x
  {
    MultiplesOrdered(0, i, x);
  }

  lemma PositiveFactor(j: int, x: int)
    requires j * x >= 1 && x >= 0
    ensures j >= 1
  {
    ProductSign(j, x);
  }

  lemma ScaleOrder(g: int, x: int, y: int)
    requires g > 0
    ensures x < y <==> g * x < g * y
    ensures x <= y <==> g * x <= g * y
  {
    if x < y { MultiplesOrdered(x, y, g); }
    if x > y { MultiplesOrdered(y, x, g); }
  }

  lemma ProductsOrdered(a: int, b: int, x: int, y: int)
    requires 0 <= a <= x && 0 <= b <= y
    ensures a * b <= x * y
  {
    ProductSign(a, y - b);
    Distribute(a, y, b);
    ProductSign(x - a, y);
    Distribute(y, x, a);
  }

  lemma Combine(i: int, p: int, j: int, q: int, d: int)
    ensures (i * p + j * q) * d == i * (p * d) + j * (q * d)
  {
    Distribute(d, i * p, j * q);
    Associate(i, p, d);
    Associate(j, q, d);
  }

  lemma QuotientBounds(n: int, d: int)
    requires d > 0
    ensures (n / d) * d <= n < (n / d) * d + d
    ensures n == (n / d) * d + n % d
  {
  }

  /** Quotient and remainder are determined by the division identity. */
  lemma DivisionUnique(n: int, d: int, q: int, r: int)
    requires d > 0 && n == q * d + r && 0 <= r < d
    ensures n / d == q && n % d == r
  {
    QuotientBounds(n, d);
    if q < n / d {
      MultiplesOrdered(q, n / d, d);
    } else if n / d < q {
      MultiplesOrdered(n / d, q, d);
    }
  }

  lemma QuotientNonNegative(n: int, d: int)
    requires n >= 0 && d > 0
    ensures n / d >= 0
  {
    QuotientBounds(n, d);
    if n / d < 0 { MultiplesOrdered(n / d, 0, d); }
  }
}
