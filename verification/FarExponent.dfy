/** Exponents of more than five digits: the loop stops reading them, and it does not matter. */
module FarExponent {
  import opened Powers
  import opened Digits
  import opened Binary64
  import opened Json
  import opened NumberScan
  import opened NumberValue
  import Decimals
  import DecimalToDouble

  /** The exponent is read to its end, or is so large that the digits before it make no difference. */
  predicate ExponentEnough(n: Number) {
    SmallExponent(n) || (|n.whole| <= Decimals.MAX_DNUM && |n.frac| <= 9000)
  }

  /** Then the value read has the same nearest double as the value. */
  lemma ReadIsEnough(n: Number, b: nat)
    requires ExponentEnough(n)
    ensures Nearest(ReadMagnitude(n), b) <==> Nearest(Magnitude(n), b)
  {
    hide Nearest, Frac, Times, Ten, NatOf, SignedExponent, Exponent10;
    if SmallExponent(n) {
      ExponentRead(n);
    } else if AllZero(n.whole + n.frac) {
      FracZero(n.whole + n.frac);
      TimesUnit(Ten(|n.whole| + SignedExponent(n.exp)));
      TimesUnit(Ten(|n.whole| + Exponent10(n.exp)));
    } else {
      FarApart(n);
      if n.exp.sign == [MINUS] {
        FarBelow(n, SignedExponent(n.exp));
        FarBelow(n, Exponent10(n.exp));
        Same(ReadMagnitude(n), Magnitude(n), 0, b);
      } else {
        FarAbove(n, SignedExponent(n.exp));
        FarAbove(n, Exponent10(n.exp));
        Same(ReadMagnitude(n), Magnitude(n), INFINITY, b);
      }
    }
  }

  lemma Same(u: real, v: real, c: nat, b: nat)
    requires Nearest(u, c) && Nearest(v, c)
    ensures Nearest(u, b) <==> Nearest(v, b)
  {
    hide Nearest;
    if Nearest(u, b) {
      NearestUnique(u, b, c);
    }
    if Nearest(v, b) {
      NearestUnique(v, b, c);
    }
  }

  lemma FarApart(n: Number)
    requires !SmallExponent(n)
    ensures var e, f := SignedExponent(n.exp), Exponent10(n.exp);
            if n.exp.sign == [MINUS] then e <= -10000 && f <= -10000 else e >= 10000 && f >= 10000
  {
    AccumulatedExact(n.exp.digits);
    hide NatOf, Accumulated;
  }

  lemma FarBelow(n: Number, e: int)
    requires e <= -10000 && |n.whole| <= Decimals.MAX_DNUM
    ensures Nearest(Times(Frac(n.whole + n.frac), Ten(|n.whole| + e)), 0)
  {
    hide Nearest, Frac, Times, Ten;
    var f, k := Frac(n.whole + n.frac), |n.whole| + e;
    FracRange(n.whole + n.frac);
    TimesOrder(f, 1.0, Ten(k));
    TimesOrder(0.0, f, Ten(k));
    TimesUnit(Ten(k));
    DecimalToDouble.Underflow(Times(f, Ten(k)), k);
  }

  lemma FarAbove(n: Number, e: int)
    requires e >= 10000 && |n.frac| <= 9000 && !AllZero(n.whole + n.frac)
    ensures Nearest(Times(Frac(n.whole + n.frac), Ten(|n.whole| + e)), INFINITY)
  {
    hide Nearest, Frac, Times, Ten, NatOf, AllZero;
    var d := n.whole + n.frac;
    var k := e - |n.frac|;
    NatOfFrac(d);
    NatOfZero(d);
    TimesAssoc(Frac(d), Ten(|d|), Ten(k));
    TenAdd(|d|, k, |n.whole| + e);
    TimesOrder(1.0, NatOf(d) as real, Ten(k));
    TimesUnit(Ten(k));
    DecimalToDouble.Overflow(Times(Frac(d), Ten(|n.whole| + e)), k + 1);
  }
}
