/** Decimal fractions 0.d1d2d3... as exact reals, and the digits of a natural. */
module Digits {
  import opened Powers

  type digit = x: nat | x < 10

  /** The value of 0.s. */
  function Frac(s: seq<digit>): (r: real) {
    if s == [] then 0.0 else 0.1 * (s[0] as real + Frac(s[1..]))
  }

  lemma {:induction false} FracRange(s: seq<digit>)
    ensures 0.0 <= Frac(s) < 1.0
    ensures s != [] ==> 0.1 * s[0] as real <= Frac(s) < 0.1 * (s[0] as real + 1.0)
  {
    if s != [] {
      FracRange(s[1..]);
    }
  }

  lemma FracCons(x: digit, s: seq<digit>)
    ensures Frac([x] + s) == 0.1 * (x as real + Frac(s))
  {
    assert ([x] + s)[1..] == s;
  }

  /** What an appended tail is worth: 0.ab == 0.a + 0.b * 10^-|a|. */
  lemma {:induction false} FracConcat(a: seq<digit>, b: seq<digit>)
    ensures Frac(a + b) == Frac(a) + Times(Ten(-|a|), Frac(b))
  {
    if a == [] {
      assert a + b == b;
      TenBase();
      TimesUnit(Frac(b));
    } else {
      assert a + b == [a[0]] + (a[1..] + b);
      FracCons(a[0], a[1..] + b);
      assert [a[0]] + a[1..] == a;
      FracCons(a[0], a[1..]);
      FracConcat(a[1..], b);
      TenStep(-|a|);
      TimesScale(10.0, Ten(-|a|), Frac(b));
      hide Frac, Ten, Times;
      assert -|a[1..]| == -|a| + 1;
    }
  }

  lemma FracSnoc(s: seq<digit>, x: digit)
    ensures Frac(s + [x]) == Frac(s) + Times(Ten(-|s| - 1), x as real)
  {
    SingleFrac(x);
    hide Frac, Ten, Times;
    FracConcat(s, [x]);
    var e := -|s| - 1;
    TenStep(e);
    assert e + 1 == -|s|;
    ShiftTen(Ten(e), Ten(e + 1), x as real, Frac([x]));
  }

  lemma SingleFrac(x: digit)
    ensures Frac([x]) == 0.1 * x as real
  {
    FracCons(x, []);
    assert [x] + [] == [x];
  }

  lemma ShiftTen(t: real, u: real, x: real, y: real)
    requires u == 10.0 * t && y == 0.1 * x
    ensures Times(u, y) == Times(t, x)
  {
    assert u * y == (10.0 * t) * (0.1 * x);
    assert (10.0 * t) * (0.1 * x) == t * x;
  }

  predicate AllZero(s: seq<digit>) {
    forall i | 0 <= i < |s| :: s[i] == 0
  }

  lemma {:induction false} FracZero(s: seq<digit>)
    ensures Frac(s) == 0.0 <==> AllZero(s)
  {
    if s != [] {
      FracZero(s[1..]);
      FracRange(s[1..]);
      assert AllZero(s) <==> s[0] == 0 && AllZero(s[1..]);
    }
  }

  /** Dropping a tail loses less than one unit of the last kept place, and nothing exactly when the
      tail is zero. */
  lemma FracPrefix(s: seq<digit>, n: nat)
    requires n <= |s|
    ensures Frac(s[..n]) <= Frac(s) <= Frac(s[..n]) + Ten(0 - n)
    ensures Frac(s[..n]) == Frac(s) <==> AllZero(s[n..])
  {
    hide Frac, Ten, Times, AllZero;
    assert s == s[..n] + s[n..];
    FracConcat(s[..n], s[n..]);
    FracRange(s[n..]);
    FracZero(s[n..]);
    var t, f := Ten(0 - n), Frac(s[n..]);
    TimesComm(t, f);
    TimesOrder(0.0, f, t);
    TimesOrder(f, 1.0, t);
    TimesOrder(f, 0.0, t);
    TimesUnit(t);
  }

  /** The first n digits are the integer part once the point is moved behind them. */
  lemma FracFloor(s: seq<digit>, n: nat)
    requires n <= |s|
    ensures Times(Frac(s), Ten(n)).Floor == NatOf(s[..n])
    ensures Times(Frac(s[..n]), Ten(n)).Floor == NatOf(s[..n])
  {
    hide Frac, Ten, Times, NatOf;
    var h, r := s[..n], s[n..];
    assert s == h + r;
    FracConcat(h, r);
    FracRange(r);
    NatOfFrac(h);
    TimesAdd(Frac(h), Times(Ten(0 - n), Frac(r)), Ten(n));
    TimesComm(Ten(0 - n), Frac(r));
    TimesAssoc(Frac(r), Ten(0 - n), Ten(n));
    TenAdd(0 - n, n, 0);
    TenBase();
    TimesUnit(Frac(r));
    assert Times(Frac(s), Ten(n)) == NatOf(h) as real + Frac(r);
  }

  /** At the first difference the digits decide. */
  lemma {:induction false} FracLess(a: seq<digit>, b: seq<digit>, i: nat)
    requires i < |a| && i < |b| && a[..i] == b[..i] && a[i] < b[i]
    ensures Frac(a) < Frac(b)
  {
    if i == 0 {
      FracRange(a);
      FracRange(b);
    } else {
      assert a[0] == a[..i][0] == b[..i][0] == b[0];
      assert a[1..][..i - 1] == a[..i][1..] == b[1..][..i - 1];
      FracLess(a[1..], b[1..], i - 1);
    }
  }

  // ----- naturals -----

  /** The decimal digits of n, most significant first; none for zero. */
  function DigitsOf(n: nat): (s: seq<digit>) {
    if n == 0 then [] else DigitsOf(n / 10) + [n % 10]
  }

  lemma {:induction false} DigitsOfValue(n: nat)
    ensures Times(Frac(DigitsOf(n)), Ten(|DigitsOf(n)|)) == n as real
    ensures n > 0 ==> DigitsOf(n) != [] && DigitsOf(n)[0] > 0
  {
    if n == 0 {
      TimesUnit(Ten(0));
    } else {
      DigitsOfValue(n / 10);
      var s, x := DigitsOf(n / 10), n % 10;
      assert n / 10 == 0 ==> s == [];
      FracSnoc(s, x);
      assert DigitsOf(n) == s + [x];
      SnocScaled(s, x, Frac(s), Frac(s + [x]), (n / 10) as real);
    }
  }

  lemma SnocScaled(s: seq<digit>, x: digit, f: real, g: real, v: real)
    requires g == f + Times(Ten(-|s| - 1), x as real) && Times(f, Ten(|s|)) == v
    ensures Times(g, Ten(|s| + 1)) == 10.0 * v + x as real
  {
    hide Ten, Times;
    var t := Ten(|s| + 1);
    TenStep(|s|);
    TimesAdd(f, Times(Ten(-|s| - 1), x as real), t);
    TimesDouble10(f, Ten(|s|));
    TimesComm(Ten(-|s| - 1), x as real);
    TimesAssoc(x as real, Ten(-|s| - 1), t);
    TenAdd(-|s| - 1, |s| + 1, 0);
    TenBase();
    TimesUnit(x as real);
  }

  lemma TimesDouble10(x: real, t: real)
    ensures Times(x, 10.0 * t) == 10.0 * Times(x, t) && Times(10.0 * x, t) == 10.0 * Times(x, t)
  {
    assert x * (10.0 * t) == 10.0 * (x * t);
    assert (10.0 * x) * t == 10.0 * (x * t);
  }

  /** n has |DigitsOf(n)| digits. */
  lemma DigitCount(n: nat)
    requires n > 0
    ensures |DigitsOf(n)| > 0
    ensures Ten(|DigitsOf(n)| - 1) <= n as real < Ten(|DigitsOf(n)|)
  {
    var s := DigitsOf(n);
    DigitsOfValue(n);
    FracRange(s);
    hide Frac, DigitsOf, Ten, Times;
    TenStep(|s| - 1);
    TimesOrder(0.1, Frac(s), Ten(|s|));
    TimesOrder(Frac(s), 1.0, Ten(|s|));
    TimesUnit(Ten(|s|));
    TimesScale(0.1, 1.0, Ten(|s|));
  }

  /** The natural a digit string spells. */
  function NatOf(d: seq<digit>): nat {
    if d == [] then 0 else 10 * NatOf(d[..|d| - 1]) + d[|d| - 1]
  }

  lemma {:induction false} NatOfFrac(d: seq<digit>)
    ensures Times(Frac(d), Ten(|d|)) == NatOf(d) as real
  {
    if d == [] {
      TimesUnit(Ten(0));
    } else {
      var s, x := d[..|d| - 1], d[|d| - 1];
      NatOfFrac(s);
      assert d == s + [x];
      FracSnoc(s, x);
      SnocScaled(s, x, Frac(s), Frac(d), NatOf(s) as real);
    }
  }

  /** A digit string of n digits spells less than 10^n. */
  lemma {:induction false} NatOfBound(d: seq<digit>)
    ensures NatOf(d) < Pow(10, |d|)
  {
    if d != [] {
      NatOfBound(d[..|d| - 1]);
    }
  }

  lemma {:induction false} NatOfZero(d: seq<digit>)
    ensures NatOf(d) == 0 <==> AllZero(d)
  {
    if d != [] {
      NatOfZero(d[..|d| - 1]);
      assert AllZero(d) <==> AllZero(d[..|d| - 1]) && d[|d| - 1] == 0;
    }
  }

  lemma {:induction false} NatOfConcat(a: seq<digit>, b: seq<digit>)
    ensures NatOf(a + b) == NatOf(a) * Pow(10, |b|) + NatOf(b)
    decreases |b|
  {
    if b == [] {
      assert a + b == a;
    } else {
      var c, x := b[..|b| - 1], b[|b| - 1];
      assert (a + b)[..|a + b| - 1] == a + c;
      NatOfConcat(a, c);
      TenTimes(NatOf(a), Pow(10, |c|), NatOf(c), x);
    }
  }

  lemma TenTimes(a: nat, p: nat, c: nat, x: nat)
    ensures 10 * (a * p + c) + x == a * (10 * p) + (10 * c + x)
  {}
}
