/** The fastest path: one or two floating-point operations whose operands are exact.  The
    machine's rounding is a parameter: any function that returns the nearest double. */
module FloatingFast {
  import opened Options
  import opened Powers
  import opened Binary64
  import opened Pow10Table
  import opened EiselLemire

  type Rounding = round: real -> nat | RoundsNearest(round)
    ghost witness Ideal

  ghost predicate RoundsNearest(round: real -> nat) {
    forall v: real | v >= 0.0 :: Nearest(v, round(v))
  }

  ghost function Ideal(v: real): nat { if v >= 0.0 then NearestOf(v) else 0 }

  /** Any integer of at most 53 bits times a power of two in range is a double. */
  lemma {:induction false} Representable(m: nat, e: int) returns (b: nat)
    requires m <= P53 && 1 <= e <= 1100
    ensures b <= INFINITY && Value(b) == Times(m as real, Two(e - 1075))
    decreases if m < P52 then e else 0
  {
    hide Value, Two, Times;
    if m >= P52 || e == 1 {
      ValueAt(e, m);
      b := (e - 1) * P52 + m;
    } else {
      b := Representable(2 * m, e - 1);
      TwoStep(e - 1 - 1075);
      TimesDouble(m as real, Two(e - 1 - 1075));
      assert e - 1 - 1075 + 1 == e - 1075;
      assert (2 * m) as real == 2.0 * m as real;
    }
  }

  /** A representable value is its own nearest double. */
  lemma NearestExact(v: real, b: nat, c: nat)
    requires Nearest(v, b) && c <= INFINITY && Value(c) == v
    ensures Value(b) == v
  {
    hide Value;
    if b != c {
      assert Abs(v - Value(b)) <= Abs(v - Value(c));
    }
  }

  lemma IntegerExact(n: nat, b: nat)
    requires n <= P53 && Nearest(n as real, b)
    ensures Value(b) == n as real
  {
    hide Value, Two, Times, Nearest;
    var c := Representable(n, 1075);
    TwoBase();
    TimesUnit(n as real);
    NearestExact(n as real, b, c);
  }

  /** 10^0 to 10^22 are doubles: 5^22 has 52 bits. */
  lemma TenExact(n: nat, b: nat)
    requires n <= 22 && Nearest(Ten(n), b)
    ensures Value(b) == Ten(n)
  {
    PowProduct(5, 2, n);
    TenNat(n);
    TwoNat(n);
    TimesNat(Pow(5, n), Pow(2, n), Pow(10, n));
    FiveFits(n);
    hide Value, Two, Ten, Times, Nearest, Pow;
    var c := Representable(Pow(5, n), 1075 + n);
    NearestExact(Ten(n), b, c);
  }

  lemma FiveFits(n: nat)
    requires n <= 22
    ensures Pow(5, n) <= P53
  {
    assert Pow(5, 11) == 48828125;
    hide Pow;
    var z: nat :| z < 1; // keeps the exponents symbolic
    PowSplit(5, 11 + z, 11 + z, 48828125, 48828125);
    PowMono(5, n, 22 + z);
  }

  /** Rounding cannot bring an integer above 2^53 below it. */
  lemma LargeStaysLarge(v: real, b: nat)
    requires Nearest(v, b) && v >= P53 as real
    ensures Value(b) >= P53 as real
  {
    hide Value, Two, Times;
    var c := Representable(P53, 1075);
    TwoBase();
    TimesUnit(P53 as real);
    assert b == c || Abs(v - Value(b)) <= Abs(v - Value(c));
  }

  /** The first of two products is small enough to be exact. */
  predicate FastGives(man: nat, exp10: int) { exp10 <= 22 || Exact(man, exp10 - 22) <= 1000000000000000.0 }

  /** include/sonic/dom/parser.h, parseFloatingFast, under the condition of its call. */
  method ParseFloatingFast(round: Rounding, man: nat, exp10: int) returns (d: Option<nat>)
    requires man < P52 && -22 <= exp10 <= 37
    ensures d.Some? ==> Nearest(Exact(man, exp10), d.value) && (d.value == 0 || P52 <= d.value < INFINITY)
    ensures d.Some? <==> FastGives(man, exp10)
  {
    hide Value, Two, Ten, Times, Nearest, Exact;
    FastIsFinite(man, exp10);
    var x := round(man as real);
    IntegerExact(man, x);
    if exp10 > 0 {
      if exp10 > 22 {
        var k := exp10 - 22;
        TenExact(k, round(Ten(k)));
        ExactValue(man, k);
        x := round(Times(Value(x), Value(round(Ten(k)))));
        ScaledCompare(man, k, x);
        if Value(x) > 1000000000000000.0 {
          return None;
        }
        ScaledInteger(man, k, x);
        TenExact(22, round(Ten(22)));
        TwoStages(man, k);
        return Some(round(Times(Value(x), Value(round(Ten(22))))));
      }
      TenExact(exp10, round(Ten(exp10)));
      ExactValue(man, exp10);
      return Some(round(Times(Value(x), Value(round(Ten(exp10))))));
    } else {
      TenExact(-exp10, round(Ten(-exp10)));
      Quotient(man, exp10);
      return Some(round(Value(x) / Value(round(Ten(-exp10)))));
    }
  }

  lemma ExactValue(man: nat, exp10: int)
    ensures Exact(man, exp10) == Times(man as real, Ten(exp10)) && Times(man as real, Ten(exp10)) >= 0.0
  {
    hide Ten, Times;
    TimesOrder(0.0, man as real, Ten(exp10));
    TimesUnit(Ten(exp10));
  }

  /** Rounding does not take a product across 10^15. */
  lemma ScaledCompare(man: nat, k: nat, x: nat)
    requires Nearest(Times(man as real, Ten(k)), x)
    ensures Value(x) > 1000000000000000.0 <==> Times(man as real, Ten(k)) > 1000000000000000.0
  {
    TenNat(k);
    TimesNat(man, Pow(10, k), man * Pow(10, k));
    hide Value, Ten, Times, Nearest, Pow;
    var n := man * Pow(10, k);
    if n <= P53 {
      IntegerExact(n, x);
    } else {
      LargeStaysLarge(n as real, x);
    }
  }

  /** The first product is exact when it is no more than 10^15. */
  lemma ScaledInteger(man: nat, k: nat, x: nat)
    requires Nearest(Times(man as real, Ten(k)), x) && Value(x) <= 1000000000000000.0
    ensures Value(x) == Times(man as real, Ten(k))
  {
    TenNat(k);
    TimesNat(man, Pow(10, k), man * Pow(10, k));
    hide Value, Ten, Times, Nearest, Pow;
    var n := man * Pow(10, k);
    if n <= P53 {
      IntegerExact(n, x);
    } else {
      LargeStaysLarge(n as real, x);
    }
  }

  lemma TwoStages(man: nat, k: nat)
    ensures Times(Times(man as real, Ten(k)), Ten(22)) == Exact(man, k + 22)
    ensures Exact(man, k + 22) >= 0.0
  {
    ExactValue(man, k + 22);
    hide Ten, Times;
    TimesAssoc(man as real, Ten(k), Ten(22));
    TenAdd(k, 22, k + 22);
  }

  lemma Quotient(man: nat, exp10: int)
    requires exp10 <= 0
    ensures man as real / Ten(-exp10) == Exact(man, exp10) && Exact(man, exp10) >= 0.0
  {
    ExactValue(man, exp10);
    hide Ten, Times;
    TenAdd(exp10, -exp10, 0);
    TenBase();
    TimesAssoc(man as real, Ten(exp10), Ten(-exp10));
    TimesUnit(man as real);
    Divide(man as real, Ten(-exp10), Times(man as real, Ten(exp10)));
  }

  lemma Divide(x: real, y: real, z: real)
    requires y > 0.0 && Times(z, y) == x
    ensures x / y == z
  {
  }

  /** Nothing below 2^1000 rounds to infinity. */
  lemma SmallIsFinite(v: real, b: nat)
    requires 0.0 <= v < Two(1000) && Nearest(v, b)
    ensures b < INFINITY
  {
    hide Two, Value;
    ValueEnds();
    TwoMono(1000, 1023);
    TwoStep(1023);
    assert b == 0 || Abs(v - Value(b)) <= Abs(v - Value(0));
  }

  lemma ValueEnds()
    ensures Value(0) == 0.0 && Value(INFINITY) == Two(1024)
  {
    hide Two, Times;
    TimesOrder(0.0, 1.0, Two(-1074));
    TimesComm(0.0, Two(-1074));
    assert Value(0) == Times(0.0, Two(-1074));
    TimesZero(Two(-1074));
    var k: nat := 2047;
    ValueAt(k, P52);
    assert (k - 1) * P52 + P52 == INFINITY;
    FiftyTwo();
    TimesComm(Two(52), Two(972));
    TwoAdd(972, 52, 1024);
  }

  lemma TimesZero(x: real)
    ensures Times(0.0, x) == 0.0
  {}

  lemma FiftyTwo()
    ensures Two(52) == P52 as real
  {
    hide Pow, Two;
    SmallPowers();
    TwoNat(52);
    PowSplit(2, 20, 20, 1048576, 1048576);
    PowSplit(2, 40, 5, 1099511627776, 32);
    PowSplit(2, 45, 5, 35184372088832, 32);
    PowSplit(2, 50, 1, 1125899906842624, 2);
    PowSplit(2, 51, 1, 2251799813685248, 2);
  }

  /** The operands of the fastest path are far from infinity. */
  lemma FastIsSmall(man: nat, exp10: int)
    requires man < P52 && exp10 <= 37
    ensures 0.0 <= Exact(man, exp10) < Two(1000)
  {
    hide Ten, Two, Times, Pow;
    TenMono(exp10, 37);
    TenNat(37);
    PowBaseMono(10, 16, 37);
    PowMul(2, 4, 37);
    Sixteen();
    TwoNat(148);
    FiftyTwo();
    ExactValue(man, exp10);
    TimesOrder(man as real, P52 as real, Ten(exp10));
    TimesComm(P52 as real, Ten(exp10));
    TimesOrder(Ten(exp10), Two(148), Two(52));
    TwoAdd(148, 52, 200);
    TwoMono(201, 1000);
    TwoStep(200);
  }

  lemma Sixteen()
    ensures Pow(2, 4) == 16
  {}

  lemma FastIsFinite(man: nat, exp10: int)
    requires man < P52 && -22 <= exp10 <= 37
    ensures forall b: nat :: Nearest(Exact(man, exp10), b) ==> b == 0 || P52 <= b < INFINITY
  {
    hide Exact, Nearest, Two;
    FastIsSmall(man, exp10);
    forall b: nat | Nearest(Exact(man, exp10), b)
      ensures b == 0 || P52 <= b < INFINITY
    {
      SmallIsFinite(Exact(man, exp10), b);
      FastIsNormal(man, exp10, b);
    }
  }

  /** Nor are they subnormal. */
  lemma FastIsNormal(man: nat, exp10: int, b: nat)
    requires -22 <= exp10 && Nearest(Exact(man, exp10), b)
    ensures b == 0 || b >= P52
  {
    hide Nearest, Two, Ten, Times, Value;
    if man == 0 {
      TimesZero(Ten(exp10));
      ZeroRounds(b);
    } else {
      TimesOrder(1.0, man as real, Ten(exp10));
      TimesUnit(Ten(exp10));
      TenMono(-22, exp10);
      SmallTen();
      NormalRounds(Exact(man, exp10), b);
    }
  }

  lemma ZeroRounds(b: nat)
    requires Nearest(0.0, b)
    ensures b == 0
  {
    hide Value;
    ValueNonNegative(b);
    assert b == 0 || Abs(0.0 - Value(b)) <= Abs(0.0 - Value(0));
    if b > 0 {
      ValueLess(0, b);
    }
  }

  lemma SmallTen()
    ensures Two(-1022) <= Ten(-22)
  {
    Log2TenExact(-22);
    hide Two, Ten;
    TwoMono(-1022, Log2Ten(-22));
  }

  /** From 2^-1022 on, doubles are normal. */
  lemma NormalRounds(v: real, b: nat)
    requires v >= Two(-1022) && Nearest(v, b)
    ensures b >= P52
  {
    hide Two, Times, Value;
    var one: nat := 1;
    ValueAt(one, P52);
    TwoFiftyTwo();
    if b < P52 {
      ValueLess(b, P52);
    }
    assert b == P52 || Abs(v - Value(b)) <= Abs(v - Value(P52));
  }

  lemma TwoFiftyTwo()
    ensures Times(P52 as real, Two(-1074)) == Two(-1022)
  {
    FiftyTwo();
    hide Two, Times;
    TimesComm(Two(52), Two(-1074));
    TwoAdd(52, -1074, -1022);
  }

  // ---- the range of normal doubles ----

  lemma InfinityAbove(v: real, w: real)
    requires v <= w && Nearest(v, INFINITY)
    ensures Nearest(w, INFINITY)
  {
    NearestIsRounds(v, INFINITY);
    NearestIsRounds(w, INFINITY);
    hide Nearest, Value;
  }

  lemma AboveSubnormal(v: real, b: nat)
    requires Times((2 * P53 - 1) as real, Two(-1076)) <= v && Nearest(v, b)
    ensures P52 <= b <= INFINITY
  {
    NearestIsRounds(v, b);
    hide Nearest, Value, Two, Times;
    if b < P52 {
      var one: nat := 1;
      ValueAt(one, P52);
      ValueAt(one, P52 - 1);
      if b < P52 - 1 {
        ValueLess(b, P52 - 1);
        ValueLess(b + 1, P52);
      }
      TwoStep(-1076);
      TwoStep(-1075);
      TimesDouble(P52 as real, Two(-1075));
      TimesDouble((P52 - 1) as real, Two(-1075));
      TimesDouble(2.0 * P52 as real, Two(-1076));
      TimesDouble(2.0 * (P52 - 1) as real, Two(-1076));
      SumBelow(Two(-1076));
    }
  }

  /** Half of the sum of the two greatest neighbours below is smaller. */
  lemma SumBelow(u: real)
    requires u > 0.0
    ensures Times(4.0 * P52 as real, u) + Times(4.0 * (P52 - 1) as real, u) < 2.0 * Times((2 * P53 - 1) as real, u)
  {}

  /** Values from 2^-1022 to 2^1023 are in that range. */
  lemma WellInside(v: real)
    requires Two(-1022) <= v < Two(1023)
    ensures RoundsNormal(v)
  {
    hide Two, Times, Nearest;
    TwoFiftyThree();
    TwoStep(53);
    TimesOrder((2 * P53 - 1) as real, Two(54), Two(-1076));
    TwoAdd(54, -1076, -1022);
    if Nearest(v, INFINITY) {
      NotInfinity(v);
    }
  }

  lemma TwoFiftyThree()
    ensures Two(53) == P53 as real
  {
    FiftyTwo();
    TwoStep(52);
  }

  lemma NotInfinity(v: real)
    requires 0.0 <= v < Two(1023)
    ensures !Nearest(v, INFINITY)
  {
    ValueEnds();
    TwoStep(1023);
    hide Two, Value;
    assert Abs(v - Value(0)) < Abs(v - Value(INFINITY));
  }
}
