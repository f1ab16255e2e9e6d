/** The bitwise or on natural numbers. */
module BitwiseOr {
  import opened Powers

  /** The bitwise or of two words. */
  function OrBits(x: nat, y: nat): nat
    decreases x + y
  {
    if x == 0 && y == 0 then 0 else 2 * OrBits(x / 2, y / 2) + if x % 2 == 1 || y % 2 == 1 then 1 else 0
  }

  lemma {:induction false} OrComm(x: nat, y: nat)
    ensures OrBits(x, y) == OrBits(y, x)
    decreases x + y
  {
    if x != 0 || y != 0 {
      OrComm(x / 2, y / 2);
    }
  }

  lemma {:induction false} OrZero(x: nat)
    ensures OrBits(x, 0) == x
    decreases x
  {
    if x != 0 {
      OrZero(x / 2);
    }
  }

  /** Without a bit in common the or is the sum. */
  lemma {:induction false} OrDisjoint(a: nat, y: nat, k: nat)
    requires y < Pow(2, k)
    ensures OrBits(a * Pow(2, k), y) == a * Pow(2, k) + y
    decreases k
  {
    if k == 0 {
      OrZero(a);
    } else {
      var h := a * Pow(2, k - 1);
      MulAssoc(a, 2, Pow(2, k - 1));
      assert a * Pow(2, k) == 2 * h;
      OrDisjoint(a, y / 2, k - 1);
    }
  }

  /** All bits set stay set. */
  lemma {:induction false} OrOnes(y: nat, n: nat)
    requires y < Pow(2, n)
    ensures OrBits(Pow(2, n) - 1, y) == Pow(2, n) - 1
    decreases n
  {
    if n > 0 {
      OrOnes(y / 2, n - 1);
    }
  }

  lemma {:induction false} OrBelow(x: nat, y: nat, n: nat)
    requires x < Pow(2, n) && y < Pow(2, n)
    ensures OrBits(x, y) < Pow(2, n)
    decreases n
  {
    if n > 0 {
      OrBelow(x / 2, y / 2, n - 1);
    }
  }
}
