/** The bitwise OR of two's complement numbers of any width, and what the sources use it for. */
module Bits {
  import opened FixedWidth
  import opened Products

  function Or(x: int, y: int): int
    decreases Abs(x) + Abs(y)
  {
    if -1 <= x <= 0 && -1 <= y <= 0 then
      if x == 0 && y == 0 then 0 else -1
    else
      2 * Or(x / 2, y / 2) + (if x % 2 == 1 || y % 2 == 1 then 1 else 0)
  }

  function Pow2(k: nat): (p: nat)
    ensures p >= 1
  {
    if k == 0 then 1 else 2 * Pow2(k - 1)
  }

  /** One comparison with a power of two is a comparison of both operands with it. */
  lemma {:induction false} OrBelow(x: nat, y: nat, k: nat)
    ensures 0 <= Or(x, y) && (Or(x, y) < Pow2(k) <==> x < Pow2(k) && y < Pow2(k))
  {
    hide *;
    OrStep(x, y);
    PowStep(k);
    if x > 0 || y > 0 { OrBelow(x / 2, y / 2, if k > 0 then k - 1 else 0); }
  }

  lemma OrStep(x: nat, y: nat)
    ensures Or(x, y) == if x == 0 && y == 0 then 0 else 2 * Or(x / 2, y / 2) + (if x % 2 == 1 || y % 2 == 1 then 1 else 0)
  {
  }

  lemma PowStep(k: nat)
    ensures Pow2(k) == if k == 0 then 1 else 2 * Pow2(k - 1)
  {
  }

  /** Operands without a common bit are added. */
  lemma {:induction false} OrDisjoint(x: nat, y: nat, k: nat)
    requires y < Pow2(k)
    ensures Or(x * Pow2(k), y) == x * Pow2(k) + y
  {
    var p := Pow2(k);
    if k == 0 {
      OrZero(x);
    } else {
      var half := Pow2(k - 1);
      Associate(x, 2, half);
      Associate(2, x, half);
      assert x * p == 2 * (x * half);
      ProductSign(x, half);
      OrDisjoint(x, y / 2, k - 1);
    }
  }

  lemma {:induction false} OrZero(x: nat)
    ensures Or(x, 0) == x
  {
    if x > 0 { OrZero(x / 2); }
  }

  lemma WordSizes()
    ensures Pow2(31) == INT_MAX + 1 && Pow2(32) == TWO_TO_32
  {
    assert Pow2(8) == 0x100 && Pow2(16) == 0x1_0000 && Pow2(24) == 0x100_0000;
  }
}
