/** What a right shift does to the digits of a decimal: long division by 2^k. */
module RightShift {
  import opened Powers
  import opened Digits
  import opened LeftShift

  /** n >> k and n & (2^k - 1). */
  function Shr(n: nat, k: nat): nat {
    n / Pow(2, k)
  }

  function Low(n: nat, k: nat): nat {
    n % Pow(2, k)
  }

  lemma SplitBits(n: nat, k: nat)
    ensures n == Shl(Shr(n, k), k) + Low(n, k) && Low(n, k) < Pow(2, k)
    ensures Shr(n, k) == 0 <==> n < Pow(2, k)
    ensures n < 10 * Pow(2, k) ==> Shr(n, k) < 10
  {
    DivBound(n, Pow(2, k));
  }

  lemma DivBound(n: nat, p: nat)
    requires p > 0
    ensures n == (n / p) * p + n % p && n % p < p
    ensures n / p == 0 <==> n < p
    ensures n < 10 * p ==> n / p < 10
  {
    var q := n / p;
    assert n == q * p + n % p;
    if q >= 1 {
      MulLeft(1, q, p);
    }
    if q >= 10 {
      MulLeft(10, q, p);
    }
  }

  /** The digits not read yet, as a fraction. */
  function Rest(s: seq<digit>, r: nat): real {
    if r < |s| then Frac(s[r..]) else 0.0
  }

  /** Reading a digit, or a zero past the end, moves the point of the dividend. */
  lemma ReadDigit(s: seq<digit>, r: nat, n: nat)
    requires Times(Frac(s), Ten(r)) == n as real + Rest(s, r)
    ensures var x := if r < |s| then s[r] else 0;
            Times(Frac(s), Ten(r + 1)) == (10 * n + x) as real + Rest(s, r + 1)
  {
    RestStep(s, r);
    hide Times, Ten, Rest, Frac;
    TenStep(r);
    TimesDouble10(Frac(s), Ten(r));
  }

  lemma RestStep(s: seq<digit>, r: nat)
    ensures 10.0 * Rest(s, r) == (if r < |s| then s[r] else 0) as real + Rest(s, r + 1)
  {
    if r < |s| {
      assert s[r..] == [s[r]] + s[r + 1..];
      FracCons(s[r], s[r + 1..]);
      if r + 1 == |s| {
        assert s[r + 1..] == [];
      }
    }
  }

  lemma RestStart(s: seq<digit>)
    ensures Times(Frac(s), Ten(0)) == 0 as real + Rest(s, 0)
  {
    TenBase();
    TimesUnit(Frac(s));
    assert s[0..] == s;
  }

  /** The running sum of the division: with P = 2^k,
      a == 10 * P * 0.out + (n + rest) * 10^-|out|. */
  ghost predicate Division(a: real, out: seq<digit>, n: nat, rest: real, k: nat) {
    a == 10.0 * Times(Frac(out), Two(k)) + Times(n as real + rest, Ten(-|out|))
  }

  lemma DivisionStart(a: real, n: nat, rest: real, k: nat)
    requires a == n as real + rest
    ensures Division(a, [], n, rest, k)
  {
    TimesUnit(Two(k));
    TenBase();
    TimesUnit(n as real + rest);
  }

  /** Pick up digit x, put down the quotient digit. */
  lemma DivisionStep(a: real, s: seq<digit>, r: nat, out: seq<digit>, n: nat, k: nat, dig: digit)
    requires Division(a, out, n, Rest(s, r), k) && dig == Shr(n, k)
    ensures var x := if r < |s| then s[r] else 0;
            Division(a, out + [dig], 10 * Low(n, k) + x, Rest(s, r + 1), k)
  {
    var x := if r < |s| then s[r] else 0;
    SplitBits(n, k);
    RestStep(s, r);
    TwoNat(k);
    TimesNat(dig, Pow(2, k), Shl(dig, k));
    FracSnoc(out, dig);
    hide Times, Ten, Two, Rest, Frac, Shl, Shr, Low, Pow;
    var e := -|out| - 1;
    TenStep(e);
    assert e + 1 == -|out| && e == -|out + [dig]|;
    QuotientStep(a, Frac(out), Frac(out + [dig]), Two(k), Ten(e + 1), Ten(e), dig as real, n as real,
                 Low(n, k) as real, x as real, Rest(s, r), Rest(s, r + 1));
  }

  lemma QuotientStep(a: real, f: real, f': real, p: real, t: real, t': real, dig: real, n: real, m: real,
                     x: real, rest: real, rest': real)
    requires a == 10.0 * Times(f, p) + Times(n + rest, t) && t == 10.0 * t'
    requires n == Times(dig, p) + m && 10.0 * rest == x + rest' && f' == f + Times(t', dig)
    ensures a == 10.0 * Times(f', p) + Times(10.0 * m + x + rest', t')
  {
    hide Times;
    var n' := 10.0 * m + x + rest';
    assert n + rest == Times(dig, p) + 0.1 * n';
    TimesAdd(Times(dig, p), 0.1 * n', t);
    TimesDouble10(Times(dig, p), t');
    TimesDouble10(0.1 * n', t');
    TimesScale(0.1, n', t');
    TimesAdd(f, Times(t', dig), p);
    TimesAssoc(t', dig, p);
    TimesComm(t', Times(dig, p));
  }

  /** Each digit put down adds a factor of two to the remainder, so at most k + 1 extra
      digits follow. */
  ghost predicate Multiple(n: nat, j: nat) {
    exists c: nat :: n == Shl(c, j)
  }

  lemma MultipleStart(n: nat)
    ensures Multiple(n, 0)
  {
    assert n == Shl(n, 0);
  }

  lemma MultipleStep(n: nat, j: nat, k: nat)
    requires j <= k && Multiple(n, j)
    ensures Multiple(10 * Low(n, k), j + 1)
    ensures j == k ==> Low(n, k) == 0
  {
    var c: nat :| n == Shl(c, j);
    SplitBits(n, k);
    PowAdd(2, j, k - j);
    var q, t := Shr(n, k), Pow(2, k - j);
    hide Shr, Low;
    assert j == k ==> t == 1;
    hide Pow;
    Remainder(c, q, t, Pow(2, j), Low(n, k));
    MultipleLow(Low(n, k), c - q * t, j, Pow(2, j));
  }

  /** c*p == q*(p*t) + low makes low a multiple of p. */
  lemma Remainder(c: nat, q: nat, t: nat, p: nat, low: nat)
    requires p > 0 && c * p == q * (p * t) + low && low < p * t
    ensures c - q * t >= 0 && low == (c - q * t) * p
    ensures t == 1 ==> low == 0
  {
    MulAssoc(q, t, p);
    assert p * t == t * p;
    var e := c - q * t;
    assert low == e * p;
    if e < 0 {
      MulLeft(e, -1, p);
    }
    if t == 1 && e >= 1 {
      MulLeft(1, e, p);
    }
  }

  lemma MultipleLow(low: nat, c: nat, j: nat, p: nat)
    requires p == Pow(2, j) && low == c * p
    ensures Multiple(10 * low, j + 1)
  {
    assert Pow(2, j + 1) == 2 * p;
    hide Pow;
    MulAssoc(5 * c, 2, p);
    assert 10 * low == Shl(5 * c, j + 1);
  }

  /** At the end of the division: 0.out * 2^k is the dividend, point shifted. */
  lemma DivisionEnd(s: seq<digit>, out: seq<digit>, k: nat, r: nat, dp: int)
    requires Division(Times(Frac(s), Ten(r)), out, 0, 0.0, k)
    ensures Times(Times(Frac(out), Ten(dp - (r - 1))), Two(k)) == Times(Frac(s), Ten(dp))
  {
    hide Times, Ten, Two, Frac;
    TimesUnit(Ten(-|out|));
    var f, g, e := Frac(out), Frac(s), dp - (r - 1);
    assert Times(g, Ten(r)) == 10.0 * Times(f, Two(k));
    TimesAssoc(f, Ten(e), Two(k));
    TimesComm(Ten(e), Two(k));
    TimesAssoc(f, Two(k), Ten(e));
    TimesAssoc(g, Ten(r), Ten(e));
    TenAdd(r, e, dp + 1);
    TenStep(dp);
    TimesDouble10(g, Ten(dp));
    TimesDouble10(Times(f, Two(k)), Ten(e));
  }
}
