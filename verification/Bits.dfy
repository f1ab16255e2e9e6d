/** 64-bit words read bit by bit. */
module Bits {
  type word = bv64

  const ONES: word := 0xFFFF_FFFF_FFFF_FFFF

  predicate Low(x: word) { x & 1 == 1 }
  function Half(x: word): word { x >> 1 }

  /** Bit i, counting from the least significant. */
  predicate Bit(x: word, i: nat) {
    if i == 0 then Low(x) else Bit(Half(x), i - 1)
  }

  // ---- one-step facts about fixed-size words ----

  // Named operations: proofs about many bits treat them as unknown functions.
  function And(x: word, y: word): word { x & y }
  function Or(x: word, y: word): word { x | y }
  function Xor(x: word, y: word): word { x ^ y }
  function Not(x: word): word { !x }
  function Shl(x: word): word { x << 1 }
  function Dec(x: word): word { x - 1 }

  lemma AndStep(x: word, y: word)
    ensures Half(And(x, y)) == And(Half(x), Half(y))
    ensures Low(And(x, y)) <==> Low(x) && Low(y)
  {}

  lemma OrStep(x: word, y: word)
    ensures Half(Or(x, y)) == Or(Half(x), Half(y))
    ensures Low(Or(x, y)) <==> Low(x) || Low(y)
  {}

  lemma XorStep(x: word, y: word)
    ensures Half(Xor(x, y)) == Xor(Half(x), Half(y))
    ensures Low(Xor(x, y)) <==> Low(x) != Low(y)
  {}

  lemma NotXor(x: word)
    ensures Not(x) == Xor(x, ONES)
  {}

  lemma ShlStep(x: word)
    ensures Half(Shl(x)) == And(x, Half(ONES)) && !Low(Shl(x))
  {}

  lemma ZeroStep()
    ensures Half(0) == 0 && !Low(0)
  {}

  /** 0...01...1 */
  predicate Run(x: word) { x & (x + 1) == 0 }

  lemma RunStep(x: word)
    requires Run(x)
    ensures Run(Half(x)) && (x != 0 ==> Low(x))
  {}

  // ---- bits of the bitwise operations ----

  lemma {:induction false} BitAnd(x: word, y: word, i: nat)
    ensures Bit(And(x, y), i) <==> Bit(x, i) && Bit(y, i)
    decreases i
  {
    hide Low, Half, And;
    AndStep(x, y);
    if i > 0 {
      BitAnd(Half(x), Half(y), i - 1);
    }
  }

  lemma {:induction false} BitOr(x: word, y: word, i: nat)
    ensures Bit(Or(x, y), i) <==> Bit(x, i) || Bit(y, i)
    decreases i
  {
    hide Low, Half, Or;
    OrStep(x, y);
    if i > 0 {
      BitOr(Half(x), Half(y), i - 1);
    }
  }

  lemma {:induction false} BitXor(x: word, y: word, i: nat)
    ensures Bit(Xor(x, y), i) <==> Bit(x, i) != Bit(y, i)
    decreases i
  {
    hide Low, Half, Xor;
    XorStep(x, y);
    if i > 0 {
      BitXor(Half(x), Half(y), i - 1);
    }
  }

  lemma {:induction false} ZeroBit(i: nat)
    ensures !Bit(0, i)
  {
    hide Low, Half;
    ZeroStep();
    if i > 0 {
      ZeroBit(i - 1);
    }
  }

  function Shr(x: word, k: nat): word { if k == 0 then x else Shr(Half(x), k - 1) }

  lemma {:induction false} ShrAdd(x: word, a: nat, b: nat)
    ensures Shr(x, a + b) == Shr(Shr(x, a), b)
    decreases a
  {
    hide Half;
    if a > 0 {
      ShrAdd(Half(x), a - 1, b);
    }
  }

  lemma {:induction false} ShrZero(k: nat)
    ensures Shr(0, k) == 0
  {
    hide Half;
    ZeroStep();
    if k > 0 {
      ShrZero(k - 1);
    }
  }

  function Quarter(x: word): (q: word)
    ensures q == Half(Half(x))
  {
    x >> 2
  }

  function Eighth(x: word): (q: word)
    ensures q == Half(Quarter(x))
  {
    x >> 3
  }

  lemma ShrThree(x: word, k: nat)
    requires k >= 3
    ensures Shr(x, k) == Shr(Eighth(x), k - 3)
  {
    hide Half, Quarter, Eighth;
    assert Shr(x, k) == Shr(Half(x), k - 1);
    assert Shr(Half(x), k - 1) == Shr(Quarter(x), k - 2);
  }

  function Nine(x: word): (q: word)
    ensures q == Eighth(Eighth(Eighth(x)))
  {
    x >> 9
  }

  lemma ShrNine(x: word, k: nat)
    requires k >= 9
    ensures Shr(x, k) == Shr(Nine(x), k - 9)
  {
    hide Half, Shr, Eighth, Nine;
    ShrThree(x, k);
    ShrThree(Eighth(x), k - 3);
    ShrThree(Eighth(Eighth(x)), k - 6);
  }

  /** The most significant bit alone. */
  function Top(x: word): word { x >> 63 }

  lemma NineSeven(x: word)
    ensures Nine(Nine(Nine(Nine(Nine(Nine(Nine(x))))))) == Top(x)
  {
    calc {
      Nine(Nine(Nine(Nine(Nine(Nine(Nine(x)))))));
      Nine(Nine(Nine(Nine(Nine(Nine(x >> 9))))));
      Nine(Nine(Nine(Nine(Nine(x >> 9 >> 9)))));
      Nine(Nine(Nine(Nine(x >> 9 >> 9 >> 9))));
      Nine(Nine(Nine(x >> 9 >> 9 >> 9 >> 9)));
      Nine(Nine(x >> 9 >> 9 >> 9 >> 9 >> 9));
      Nine(x >> 9 >> 9 >> 9 >> 9 >> 9 >> 9);
      x >> 9 >> 9 >> 9 >> 9 >> 9 >> 9 >> 9;
      Top(x);
    }
  }

  lemma ShrTop(x: word, k: nat)
    requires k == 63
    ensures Shr(x, k) == Top(x)
  {
    hide Shr, Nine, Top;
    var a := Nine(x);
    var b := Nine(a);
    var c := Nine(b);
    var d := Nine(c);
    var e := Nine(d);
    var f := Nine(e);
    ShrNine(x, k);
    ShrNine(a, k - 9);
    ShrNine(b, k - 18);
    ShrNine(c, k - 27);
    ShrNine(d, k - 36);
    ShrNine(e, k - 45);
    ShrNine(f, k - 54);
    ShrNone(Nine(f), k - 63);
    NineSeven(x);
  }

  lemma ShrNone(x: word, k: int)
    requires k == 0
    ensures Shr(x, k) == x
  {}

  lemma OnesLast(k: nat)
    requires k == 63
    ensures Shr(ONES, k) == 1
  {
    ShrTop(ONES, k);
    hide Shr;
  }

  /** A run of ones has its bit k set as long as shifting by k leaves something. */
  lemma {:induction false} RunBit(x: word, k: nat)
    requires Run(x) && Shr(x, k) != 0
    ensures Bit(x, k)
    decreases k
  {
    hide Low, Half, Run;
    RunStep(x);
    if k > 0 {
      RunBit(Half(x), k - 1);
    }
  }

  lemma OnesBit(k: nat)
    requires k < 64
    ensures Bit(ONES, k)
  {
    ShrAdd(ONES, k, 63 - k);
    OnesLast(63);
    ShrZero(63 - k);
    RunBit(ONES, k);
    hide Half, Low, Shr, Bit;
  }

  lemma BitNot(x: word, i: nat)
    requires i < 64
    ensures Bit(Not(x), i) <==> !Bit(x, i)
  {
    hide Bit, Not, Xor;
    NotXor(x);
    BitXor(x, ONES, i);
    OnesBit(i);
  }

  lemma BitShl(x: word, i: nat)
    requires i < 64
    ensures Bit(Shl(x), i) <==> i > 0 && Bit(x, i - 1)
  {
    hide Half, Low, Shl, And;
    ShlStep(x);
    if i > 0 {
      BitAnd(x, Half(ONES), i - 1);
      OnesBit(i);
    }
  }

  // ---- counting and finding bits ----

  lemma {:induction false} BitIsLow(x: word, k: nat)
    ensures Bit(x, k) == Low(Shr(x, k))
    decreases k
  {
    hide Low, Half;
    if k > 0 {
      BitIsLow(Half(x), k - 1);
    }
  }

  lemma AndOnes(x: word)
    ensures And(x, ONES) == x && Shr(1, 1) == 0
  {
    ShrNone(Half(1), 0);
  }

  /** There is nothing beyond bit 63. */
  lemma NoHighBit(x: word, k: nat)
    requires k >= 64
    ensures !Bit(x, k)
  {
    hide Low, Half, Bit, Shr, And;
    AndOnes(x);
    BitAnd(x, ONES, k);
    BitIsLow(ONES, k);
    OnesLast(63);
    ShrAdd(ONES, 63, k - 63);
    ShrAdd(1, 1, k - 64);
    ShrZero(k - 64);
    ZeroStep();
  }

  lemma HalfSmaller(x: word)
    requires x != 0
    ensures Half(x) < x && (!Low(x) ==> Half(x) != 0)
  {}

  /** The number of zero bits below the lowest set bit. */
  function TrailingZeroes(x: word): (n: nat)
    requires x != 0
    decreases x
  {
    HalfSmaller(x);
    if Low(x) then 0 else 1 + TrailingZeroes(Half(x))
  }

  lemma LowestBit(x: word)
    requires x != 0
    ensures Bit(x, TrailingZeroes(x)) && TrailingZeroes(x) < 64
    ensures forall j: nat :: j < TrailingZeroes(x) ==> !Bit(x, j)
  {
    hide Low, Half;
    LowestIsSet(x);
    if TrailingZeroes(x) >= 64 {
      NoHighBit(x, TrailingZeroes(x));
    }
    NoneBelow(x);
  }

  lemma {:induction false} LowestIsSet(x: word)
    requires x != 0
    ensures Bit(x, TrailingZeroes(x))
    decreases TrailingZeroes(x)
  {
    hide Low, Half;
    HalfSmaller(x);
    if !Low(x) {
      LowestIsSet(Half(x));
    }
  }

  lemma {:induction false} NoneBelow(x: word)
    requires x != 0
    ensures forall j: nat :: j < TrailingZeroes(x) ==> !Bit(x, j)
    decreases TrailingZeroes(x)
  {
    hide Low, Half;
    HalfSmaller(x);
    if !Low(x) {
      NoneBelow(Half(x));
    }
  }

  lemma SomeBit(x: word, k: nat)
    requires Bit(x, k)
    ensures x != 0 && TrailingZeroes(x) <= k < 64
  {
    hide Low, Half, Bit;
    if x == 0 {
      ZeroBit(k);
    }
    if k >= 64 {
      NoHighBit(x, k);
    }
    NoneBelow(x);
  }

  lemma DecStep(x: word)
    requires x != 0
    ensures Low(x) ==> Half(Dec(x)) == Half(x) && !Low(Dec(x))
    ensures !Low(x) ==> Half(Dec(x)) == Dec(Half(x)) && Low(Dec(x))
  {}

  /** Subtracting one turns on the bits below the lowest set bit and clears that bit. */
  lemma {:induction false} BitDec(x: word, i: nat)
    requires x != 0
    ensures Bit(Dec(x), i) <==> i < TrailingZeroes(x) || (i > TrailingZeroes(x) && Bit(x, i))
    decreases i
  {
    hide Low, Half, Dec;
    HalfSmaller(x);
    DecStep(x);
    if i > 0 && !Low(x) {
      BitDec(Half(x), i - 1);
    }
  }

  lemma DecZero()
    ensures Dec(0) == ONES
  {}

  /** The set bits of b below the lowest set bit of a. */
  lemma BelowLowest(a: word, b: word, i: nat)
    requires i < 64 && !(Bit(a, i) && Bit(b, i))
    ensures Bit(And(Dec(a), b), i) <==> Bit(b, i) && (a == 0 || i < TrailingZeroes(a))
  {
    hide Bit, TrailingZeroes, And, Dec;
    BitAnd(Dec(a), b, i);
    DecZero();
    OnesBit(i);
    if a != 0 {
      BitDec(a, i);
      LowestBit(a);
    }
  }

  /** How many of the bits below n are set. */
  function CountBelow(x: word, n: nat): (c: nat)
    ensures c <= n
  {
    if n == 0 then 0 else CountBelow(x, n - 1) + if Bit(x, n - 1) then 1 else 0
  }

  function CountOnes(x: word): nat
    decreases x
  {
    if x == 0 then 0
    else
      HalfSmaller(x);
      (if Low(x) then 1 else 0) + CountOnes(Half(x))
  }

  lemma {:induction false} CountZero(n: nat)
    ensures CountBelow(0, n) == 0
  {
    if n > 0 {
      ZeroBit(n - 1);
      CountZero(n - 1);
    }
  }

  lemma {:induction false} CountHalf(x: word, n: nat)
    ensures CountBelow(x, n + 1) == CountBelow(Half(x), n) + if Low(x) then 1 else 0
  {
    hide Low, Half;
    if n == 0 {
      assert CountBelow(x, 1) == CountBelow(x, 0) + if Bit(x, 0) then 1 else 0;
    } else {
      CountHalf(x, n - 1);
    }
  }

  lemma CountTop(x: word, n: nat)
    requires Shr(x, n) == 0
    ensures CountOnes(x) == CountBelow(x, n)
    decreases n
  {
    hide Low, Half;
    if x == 0 {
      CountZero(n);
    } else if n > 0 {
      HalfSmaller(x);
      CountTop(Half(x), n - 1);
      CountHalf(x, n - 1);
    }
  }

  lemma {:induction false} CountSame(x: word, y: word, n: nat)
    requires forall i: nat :: i < n ==> Bit(x, i) == Bit(y, i)
    ensures CountBelow(x, n) == CountBelow(y, n)
  {
    hide Bit;
    if n > 0 {
      CountSame(x, y, n - 1);
    }
  }
}
