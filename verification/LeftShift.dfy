/** What a left shift does to the digits of a decimal, said on sequences: how many digits
    it adds, and the running sums of its two loops. */
module LeftShift {
  import opened Powers
  import opened Digits

  /** The delta column of LSHIFT_TAB: the number of decimal digits of 2^k. */
  function Delta(k: nat): nat {
    |DigitsOf(Pow(2, k))|
  }

  /** The cutoff column of LSHIFT_TAB: the decimal digits of 5^k. */
  function Cutoff(k: nat): seq<digit> {
    DigitsOf(Pow(5, k))
  }

  /** The two columns together have one digit more than k places. */
  lemma DeltaPlusCutoff(k: nat)
    requires k > 0
    ensures Delta(k) + |Cutoff(k)| == k + 1
  {
    var m, n := Delta(k), |Cutoff(k)|;
    DigitCount(Pow(2, k));
    DigitCount(Pow(5, k));
    PowProduct(2, 5, k);
    TenNat(k);
    TimesNat(Pow(2, k), Pow(5, k), Pow(10, k));
    NotTen(k);
    hide Delta, Cutoff, DigitsOf, Ten, Pow, Times;
    var a, b := Pow(2, k) as real, Pow(5, k) as real;
    assert Ten(k) == Times(a, b);
    // 10^(m-1) <= 2^k < 10^m and 10^(n-1) < 5^k < 10^n multiply to 10^(m+n-2) < 10^k < 10^(m+n)
    TenAdd(m - 1, n - 1, m + n - 2);
    TenAdd(m, n, m + n);
    TimesLess(Ten(m - 1), a, Ten(n - 1), b);
    TimesLess(a, Ten(m), b, Ten(n));
    TenReflect(m + n - 2, k);
    TenReflect(k, m + n);
  }

  lemma TimesLess(a: real, b: real, c: real, d: real)
    requires 0.0 < a <= b && 0.0 < c < d
    ensures Times(a, c) < Times(b, d)
  {
    TimesOrder(c, d, a);
    TimesOrder(a, b, d);
    TimesComm(a, c);
    TimesComm(a, d);
  }

  lemma TenReflect(m: int, n: int)
    requires Ten(m) < Ten(n)
    ensures m < n
  {
    hide Ten;
    if n <= m {
      TenMono(n, m);
    }
  }

  /** 5^k is odd, so it is no power of ten above 1; strict enough for DeltaPlusCutoff. */
  lemma NotTen(k: nat)
    requires k > 0
    ensures Ten(|Cutoff(k)| - 1) < Pow(5, k) as real
  {
    var n := Pow(5, k);
    DigitCount(n);
    TenNat(|Cutoff(k)| - 1);
    FiveOdd(k);
    if |Cutoff(k)| == 1 {
      assert Pow(10, 0) == 1 && n == 5 * Pow(5, k - 1);
    } else {
      assert Pow(10, |Cutoff(k)| - 1) == 10 * Pow(10, |Cutoff(k)| - 2);
    }
  }

  lemma {:induction false} FiveOdd(k: nat)
    ensures Pow(5, k) % 2 == 1
  {
    if k > 0 {
      FiveOdd(k - 1);
    }
  }

  lemma DeltaPositive(k: nat)
    ensures Delta(k) > 0
  {
    DigitCount(Pow(2, k));
  }

  /** 0.cutoff * 2^k is 10^(delta-1): below it the shift adds one digit less. */
  lemma CutoffScaled(k: nat)
    requires k > 0
    ensures Times(Frac(Cutoff(k)), Two(k)) == Ten(Delta(k) - 1)
  {
    DeltaPlusCutoff(k);
    DigitsOfValue(Pow(5, k));
    PowProduct(5, 2, k);
    TenNat(k);
    TwoNat(k);
    TimesNat(Pow(5, k), Pow(2, k), Pow(10, k));
    var c, f, t := |Cutoff(k)|, Frac(Cutoff(k)), Two(k);
    assert Times(f, Ten(c)) == Pow(5, k) as real;
    hide Delta, Cutoff, DigitsOf, Ten, Two, Pow, Times, Frac;
    // (f * 10^c) * 2^k == 10^k, so f * 2^k == 10^(k-c)
    TimesAssoc(f, Ten(c), t);
    TimesComm(Ten(c), t);
    TimesAssoc(f, t, Ten(c));
    TenAdd(k - c, c, k);
    TimesOrder(Times(f, t), Ten(k - c), Ten(c));
    TimesOrder(Ten(k - c), Times(f, t), Ten(c));
  }

  /** How many digits the shift adds, decided by the comparison of prefixes. */
  lemma ShiftedRange(s: seq<digit>, k: nat, delta: nat)
    requires s != [] && s[0] != 0 && k > 0
    requires delta == Delta(k) - if Frac(s) < Frac(Cutoff(k)) then 1 else 0
    ensures Ten(delta - 1) <= Times(Frac(s), Two(k)) < Ten(delta)
  {
    CutoffScaled(k);
    DigitCount(Pow(2, k));
    TwoNat(k);
    FracRange(s);
    var f, t := Frac(s), Two(k);
    var m: int := Delta(k);
    hide Delta, Cutoff, DigitsOf, Ten, Two, Pow, Times, Frac;
    TimesOrder(f, Frac(Cutoff(k)), t);
    TimesOrder(f, 1.0, t);
    TimesOrder(0.1, f, t);
    TimesUnit(t);
    TimesScale(0.1, 1.0, t);
    TenStep(m - 2);
    assert m - 2 + 1 == m - 1;
    assert 10.0 * Ten(m - 2) == Ten(m - 1);
  }

  // ----- the two loops -----

  /** x << k. */
  function Shl(x: nat, k: nat): nat {
    x * Pow(2, k)
  }

  lemma ShlDigit(x: digit, k: nat)
    requires k <= 60
    ensures Shl(x, k) <= 9 * Pow(2, k) && Pow(2, k) <= 0x1000_0000_0000_0000
  {
    ShiftFits(k);
    hide Pow;
    MulLeft(x, 9, Pow(2, k));
  }

  /** One digit of the first loop: with 0.tail * 2^k == n + 0.out, prepending digit x to the
      tail and pushing the new low digit to out keeps the sum. */
  lemma PushDigit(x: digit, tail: seq<digit>, k: nat, n: nat, out: seq<digit>, shifted: nat, quo: nat, rem: digit)
    requires Times(Frac(tail), Two(k)) == n as real + Frac(out)
    requires shifted == Shl(x, k) && n + shifted == 10 * quo + rem
    ensures Times(Frac([x] + tail), Two(k)) == quo as real + Frac([rem] + out)
  {
    TwoNat(k);
    TimesNat(x, Pow(2, k), shifted);
    hide Times, Two, Frac, Pow;
    PushDigitReal(x as real, tail, k, n as real, out, shifted as real, quo as real, rem, x);
  }

  lemma PushDigitReal(x: real, tail: seq<digit>, k: nat, n: real, out: seq<digit>, shifted: real,
      quo: real, rem: digit, xd: digit)
    requires xd as real == x && Times(Frac(tail), Two(k)) == n + Frac(out)
    requires shifted == Times(x, Two(k)) && n + shifted == 10.0 * quo + rem as real
    ensures Times(Frac([xd] + tail), Two(k)) == quo + Frac([rem] + out)
  {
    hide Times, Two, Frac;
    FracCons(xd, tail);
    FracCons(rem, out);
    TimesScale(0.1, x + Frac(tail), Two(k));
    TimesAdd(x, Frac(tail), Two(k));
  }

  /** The same for digit r of s, the tail being what follows it. */
  lemma PushDigitAt(s: seq<digit>, r: nat, k: nat, n: nat, out: seq<digit>, sum: nat)
    requires r < |s| && Times(Frac(s[r + 1..]), Two(k)) == n as real + Frac(out)
    requires sum == n + Shl(s[r], k)
    ensures Times(Frac(s[r..]), Two(k)) == (sum / 10) as real + Frac([sum % 10] + out)
  {
    hide Times, Two, Frac, Shl;
    assert s[r..] == [s[r]] + s[r + 1..];
    PushDigit(s[r], s[r + 1..], k, n, out, Shl(s[r], k), sum / 10, sum % 10);
  }

  /** One digit of the second loop. */
  lemma PushQuotient(v: real, n: nat, out: seq<digit>, j: int, quo: nat, rem: digit)
    requires v == Times(n as real + Frac(out), Ten(j)) && n == 10 * quo + rem
    ensures v == Times(quo as real + Frac([rem] + out), Ten(j + 1))
  {
    FracCons(rem, out);
    hide Times, Ten, Frac;
    TenStep(j);
    TimesDouble10(quo as real + Frac([rem] + out), Ten(j));
  }

  /** While n is positive the second loop still owes digits; when it is zero it has written
      all of them. */
  lemma OwedDigits(v: real, n: nat, out: seq<digit>, j: int, delta: nat)
    requires v == Times(n as real + Frac(out), Ten(j)) && Ten(delta - 1) <= v < Ten(delta)
    ensures n > 0 ==> j < delta
    ensures n == 0 ==> delta <= j
  {
    FracRange(out);
    hide Times, Ten, Frac;
    TimesUnit(Ten(j));
    if n > 0 {
      TimesOrder(1.0, n as real + Frac(out), Ten(j));
      TenReflect(j, delta);
    } else {
      TimesOrder(Frac(out), 1.0, Ten(j));
      TenReflect(delta - 1, j);
    }
  }

  /** The cutoff never ends in zero. */
  lemma CutoffEnds(k: nat)
    requires k > 0
    ensures Cutoff(k) != [] && Cutoff(k)[|Cutoff(k)| - 1] != 0
  {
    FiveOdd(k);
  }

  /** Comparing two fractions of which one is a prefix of the other. */
  lemma PrefixLess(a: seq<digit>, b: seq<digit>)
    requires b == [] || b[|b| - 1] != 0
    ensures a <= b ==> (Frac(a) < Frac(b) <==> |a| < |b|)
    ensures b <= a ==> Frac(b) <= Frac(a)
  {
    if a <= b {
      assert b == a + b[|a|..];
      FracConcat(a, b[|a|..]);
      FracZero(b[|a|..]);
      FracRange(b[|a|..]);
      if |a| < |b| {
        assert b[|a|..][|b| - |a| - 1] != 0;
        TimesPositive(Ten(-|a|), Frac(b[|a|..]));
      } else {
        assert a == b;
      }
    }
    if b <= a {
      FracPrefix(a, |b|);
      assert a[..|b|] == b;
    }
  }

  /** The shifts stop at 60 bits so that ten times 2^k still fits 64 bits. */
  lemma ShiftFits(k: nat)
    requires k <= 60
    ensures Pow(2, k) <= 0x1000_0000_0000_0000
  {
    SmallPowers();
    hide Pow;
    var z: nat :| z < 1; // keeps the exponents symbolic
    PowSplit(2, 20 + z, 20 + z, 1048576, 1048576);
    PowSplit(2, 40 + z, 20 + z, 1048576 * 1048576, 1048576);
    PowMono(2, k, 60 + z);
  }

  /** out as the digits of the whole product has a nonzero first digit. */
  lemma LeadingDigit(v: real, out: seq<digit>, delta: int)
    requires v == Times(Frac(out), Ten(delta)) && Ten(delta - 1) <= v
    ensures out != [] && out[0] != 0
  {
    FracRange(out);
    assert out == [] ==> Frac(out) == 0.0;
    hide Times, Ten, Frac;
    TenStep(delta - 1);
    TimesUnit(Ten(delta));
    TimesScale(0.1, 1.0, Ten(delta));
    TimesOrder(0.1, Frac(out), Ten(delta));
  }
}
