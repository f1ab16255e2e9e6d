/** What a number literal is worth, and that the digits the scanner keeps bracket it. */
module NumberValue {
  import opened Powers
  import opened Digits
  import opened Json
  import opened EiselLemire
  import opened NumberScan
  import FloatingFast
  import Str2Int

  /** The written exponent. */
  function Exponent10(e: Exponent): int {
    if e.NoExponent? then 0 else if e.sign == [MINUS] then 0 - NatOf(e.digits) else NatOf(e.digits)
  }

  predicate SmallExponent(n: Number) { n.exp.Exponent? ==> NatOf(n.exp.digits) < 100000 }

  lemma MagnitudeSign(d: seq<digit>, k: int)
    ensures Times(Frac(d), Ten(k)) >= 0.0
  {
    FracRange(d);
    hide Frac, Ten, Times;
    TimesOrder(0.0, Frac(d), Ten(k));
    TimesUnit(Ten(k));
  }

  /** The exact value of a literal, sign apart. */
  function Magnitude(n: Number): (r: real)
    ensures r >= 0.0
  {
    MagnitudeSign(n.whole + n.frac, |n.whole| + Exponent10(n.exp));
    Times(Frac(n.whole + n.frac), Ten(|n.whole| + Exponent10(n.exp)))
  }

  lemma ExponentRead(n: Number)
    requires SmallExponent(n)
    ensures SignedExponent(n.exp) == Exponent10(n.exp)
  {
    if n.exp.Exponent? {
      AccumulatedExact(n.exp.digits);
    }
  }

  /** The tail of a fraction, scaled: (0.p + 10^-kept * 0.t) * 10^k. */
  lemma ScaledTail(p: real, t: real, m: real, kept: nat, k: int)
    requires Times(p, Ten(kept)) == m
    ensures Times(p + Times(Ten(0 - kept), t), Ten(k)) == Times(m, Ten(k - kept)) + Times(t, Ten(k - kept))
  {
    hide Ten, Times;
    TimesAssoc(p, Ten(kept), Ten(k - kept));
    TenAdd(kept, k - kept, k);
    TimesAdd(p, Times(Ten(0 - kept), t), Ten(k));
    TimesComm(Ten(0 - kept), t);
    TimesAssoc(t, Ten(0 - kept), Ten(k));
    TenAdd(0 - kept, k, k - kept);
  }

  /** d = 0.D * 10^(k), kept as the integer of its first digits. */
  lemma KeptValue(d: seq<digit>, kept: nat, k: int)
    requires kept <= |d|
    ensures var v := Times(Frac(d), Ten(k));
            Exact(NatOf(d[..kept]), k - kept) <= v < Exact(NatOf(d[..kept]) + 1, k - kept)
    ensures Exact(NatOf(d[..kept]), k - kept) == Times(Frac(d), Ten(k)) <==> AllZero(d[kept..])
  {
    hide Frac, Ten, Times, NatOf, AllZero;
    var p, t := d[..kept], d[kept..];
    assert d == p + t;
    FracConcat(p, t);
    FracRange(t);
    FracZero(t);
    NatOfFrac(p);
    ScaledTail(Frac(p), Frac(t), NatOf(p) as real, kept, k);
    OneMore(NatOf(p), Ten(k - kept));
    TailSize(Frac(t), Ten(k - kept));
  }

  lemma OneMore(m: nat, u: real)
    ensures Times((m + 1) as real, u) == Times(m as real, u) + Times(1.0, u)
  {
    TimesAdd(m as real, 1.0, u);
  }

  lemma TailSize(f: real, u: real)
    requires 0.0 <= f < 1.0 && u > 0.0
    ensures 0.0 <= Times(f, u) < Times(1.0, u) && (Times(f, u) == 0.0 <==> f == 0.0)
  {}

  /** The value with the exponent as the loop accumulates it. */
  function ReadMagnitude(n: Number): real {
    Times(Frac(n.whole + n.frac), Ten(|n.whole| + SignedExponent(n.exp)))
  }

  function Prefix(d: seq<digit>): seq<digit> { if |d| < SAFE_DIGITS then d else d[..SAFE_DIGITS] }

  /** What is left of it when digits are dropped without a report: the first nineteen. */
  function Seen(n: Number): (r: real)
    ensures r >= 0.0
  {
    MagnitudeSign(n.whole + n.frac, |n.whole| + SignedExponent(n.exp));
    FloatingFast.ExactValue(NatOf(Prefix(n.whole)), |n.whole| + SignedExponent(n.exp) - SAFE_DIGITS);
    if TruncHonest(n) then ReadMagnitude(n)
    else Exact(NatOf(Prefix(n.whole)), |n.whole| + SignedExponent(n.exp) - SAFE_DIGITS)
  }

  /** No digit other than zero is dropped without a report. */
  predicate NothingLost(n: Number) { TruncHonest(n) || AllZero(n.whole[SAFE_DIGITS..]) }

  lemma LostOrSeen(n: Number)
    ensures Seen(n) == ReadMagnitude(n) <==> NothingLost(n)
  {
    hide Frac, Times, Ten, Exact, NatOf, AllZero, SignedExponent;
    if !TruncHonest(n) {
      assert n.whole + n.frac == n.whole;
      KeptValue(n.whole, SAFE_DIGITS, |n.whole| + SignedExponent(n.exp));
    }
  }

  /** The mantissa and exponent bracket what is seen of the literal, and are it when `trunc` is not set. */
  lemma SeenBracket(x: Literal, n: Number, kept: nat)
    requires Describes(x, n, kept) && x.Scaled?
    ensures Exact(x.man, x.exp10) <= Seen(n) < Exact(x.man + 1, x.exp10)
    ensures !x.trunc ==> Exact(x.man, x.exp10) == Seen(n)
  {
    hide Exact, Frac, Times, Ten, NatOf, AllZero, SignedExponent;
    var d := n.whole + n.frac;
    KeptValue(d, kept, |n.whole| + SignedExponent(n.exp));
    if TruncHonest(n) {
      if !x.trunc {
        assert d[kept..] == [];
        Vacuous();
      }
    } else {
      assert d[..kept] == n.whole[..SAFE_DIGITS];
    }
  }

  lemma Vacuous()
    ensures AllZero([])
  {}

  /** The scanner's mantissa and exponent bracket the literal, and meet it exactly when only zeros were
      dropped; in particular when `trunc` was not set and is honest. */
  lemma ScannedBracket(x: Literal, n: Number, kept: nat)
    requires Describes(x, n, kept) && x.Scaled? && SmallExponent(n)
    ensures Exact(x.man, x.exp10) <= Magnitude(n) < Exact(x.man + 1, x.exp10)
    ensures Exact(x.man, x.exp10) == Magnitude(n) <==> AllZero((n.whole + n.frac)[kept..])
    ensures !x.trunc && TruncHonest(n) ==> Exact(x.man, x.exp10) == Magnitude(n)
  {
    hide Exact, Magnitude, Frac, Times, Ten, NatOf;
    ExponentRead(n);
    var d := n.whole + n.frac;
    KeptValue(d, kept, |n.whole| + Exponent10(n.exp));
    MagnitudeIs(n);
    if !x.trunc && TruncHonest(n) {
      assert d[kept..] == [];
    }
  }

  /** What an unset `trunc` is worth: the mantissa is exact unless 20 or more integer digits, directly
      followed by an exponent, have another digit than zero after the nineteenth. */
  lemma TruncExact(x: Literal, n: Number, kept: nat)
    requires Describes(x, n, kept) && x.Scaled? && SmallExponent(n) && !x.trunc
    ensures Exact(x.man, x.exp10) == Magnitude(n) <==> TruncHonest(n) || AllZero(n.whole[SAFE_DIGITS..])
  {
    hide Exact, Magnitude, NatOf, AllZero;
    ScannedBracket(x, n, kept);
    if !TruncHonest(n) {
      assert n.whole + n.frac == n.whole;
    }
  }

  /** A literal of zeros only, with more than 22 of them behind the point and no exponent, reaches the
      table-driven paths with mantissa zero, for which they are not defined. */
  predicate ZeroSafe(n: Number) { !(AllZero(n.whole + n.frac) && n.exp.NoExponent? && |n.frac| > 22) }

  lemma ZeroMantissa(x: Literal, n: Number, kept: nat)
    requires Describes(x, n, kept) && x.Scaled?
    ensures ZeroSafe(n) <==> x.man > 0 || x.exp10 >= -22
    ensures x.man == 0 ==> x.exp10 <= 0
  {
    hide AllZero, NatOf, SignedExponent;
    var d := n.whole + n.frac;
    NatOfZero(d[..kept]);
    if x.man == 0 {
      assert d[..kept] == d;
      PlainScale(n.exp);
    } else if AllZero(d) {
      ZerosFirst(d, kept);
    }
  }

  lemma ZerosFirst(d: seq<digit>, n: nat)
    requires AllZero(d) && n <= |d|
    ensures AllZero(d[..n])
  {}

  lemma PlainScale(e: Exponent)
    requires e.NoExponent?
    ensures SignedExponent(e) == 0
  {}

  lemma MagnitudeIs(n: Number)
    ensures Magnitude(n) == Times(Frac(n.whole + n.frac), Ten(|n.whole| + Exponent10(n.exp)))
  {}

  /** The value of a literal as an integer with a power of ten. */
  lemma MagnitudeIsDecimal(n: Number)
    ensures Magnitude(n) == Exact(NatOf(n.whole + n.frac), Exponent10(n.exp) - |n.frac|)
  {
    hide Exact, Magnitude, Frac, Times, Ten, NatOf, Exponent10;
    var d := n.whole + n.frac;
    MagnitudeIs(n);
    KeptValue(d, |d|, |n.whole| + Exponent10(n.exp));
    assert d[..|d|] == d && d[|d|..] == [];
    Vacuous();
  }

  /** So trunc is no witness of an exact mantissa: in twenty ones followed by e1 the last is dropped. */
  lemma TruncIsNotHonest() returns (n: Number, x: Literal, kept: nat)
    ensures ValidNumber(n) && SmallExponent(n) && x.Scaled? && !x.trunc && Describes(x, n, kept)
    ensures Exact(x.man, x.exp10) != Magnitude(n)
  {
    var d: seq<digit> := [1, 1, 1, 1, 1, 1, 1, 1, 1, 1, 1, 1, 1, 1, 1, 1, 1, 1, 1, 1];
    var one: seq<digit> := [1];
    n := Number(false, d, [], Exponent(0x65, [], one));
    kept := SAFE_DIGITS;
    assert NatOf(one) == 1 by { Str2Int.OneDigit(one); }
    ExponentRead(n);
    hide NatOf, Accumulated, AllZero;
    assert d + [] == d;
    assert KeptCount(d, []) == kept;
    NineteenDigits(d[..kept]);
    LongMantissa(d[..kept]);
    x := Scaled(false, NatOf(d[..kept]), 2, false);
    assert Describes(x, n, kept);
    hide NatOf, Exact, Magnitude;
    ScannedBracket(x, n, kept);
    assert d[kept..][0] == 1;
  }

  /** Integer literals are exact. */
  lemma IntegersExact(x: Literal, n: Number, kept: nat)
    requires Describes(x, n, kept) && IsInteger(n)
    ensures x.Unsigned? ==> x.u as real == Magnitude(n)
    ensures x.Negative? ==> x.i as real == 0.0 - Magnitude(n)
    ensures x.NegatedMantissa? ==> x.man as real == Magnitude(n)
  {
    NatOfFrac(n.whole);
    assert n.whole + n.frac == n.whole;
    hide Frac, NatOf, Times, Ten;
  }

  lemma ZeroMagnitude(x: Literal, n: Number, kept: nat)
    requires Describes(x, n, kept) && x.ZeroDouble?
    ensures Magnitude(n) == 0.0
  {
    NatOfZero(n.whole + n.frac);
    FracZero(n.whole + n.frac);
    FloatingFast.TimesZero(Ten(|n.whole| + Exponent10(n.exp)));
    hide Frac, NatOf, Times, Ten;
  }
}
