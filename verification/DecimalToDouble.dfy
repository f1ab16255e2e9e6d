/** The slow path: scaling a decimal into [0.5, 1), extracting 53 bits, rounding once. */
module DecimalToDouble {
  import opened Powers
  import opened Binary64
  import opened Digits
  import opened RightShift
  import opened Decimals
  import opened Truncation
  import opened Pow10Table

  /** Powers of two to divide by for 0 to 8 integer digits. */
  const POW_TAB: seq<nat> := [1, 3, 6, 9, 13, 16, 19, 23, 26]

  function Step(n: nat): (k: nat)
    ensures 1 <= k <= 27
  {
    if n >= 9 then 27 else POW_TAB[n]
  }

  /** One step up never reaches 1: 10^-n * 2^Step(n) < 1. */
  lemma StepBelowOne(n: nat)
    requires n > 0
    ensures Times(Ten(0 - n), Two(Step(n))) < 1.0
  {
    if n >= 9 {
      TenMono(0 - n, -9);
      NineSteps();
      hide Times, Ten, Two;
      TimesOrder(Ten(0 - n), Ten(-9), Two(27));
    } else {
      EightSteps(n);
    }
  }

  lemma NineSteps()
    ensures Times(Ten(-9), Two(27)) < 1.0
  {
    assert Ten(-9) == 0.000000001;
    assert Two(10) == 1024.0 && Two(7) == 128.0;
    TwoAdd(10, 10, 20);
    TwoAdd(20, 7, 27);
  }

  lemma EightSteps(n: nat)
    requires 0 < n < 9
    ensures Times(Ten(0 - n), Two(POW_TAB[n])) < 1.0
  {
    assert Two(3) == 8.0 && Two(6) == 64.0 && Two(9) == 512.0 && Two(10) == 1024.0;
    assert Ten(-1) == 0.1 && Ten(-2) == 0.01 && Ten(-3) == 0.001 && Ten(-4) == 0.0001;
    assert Ten(-5) == 0.00001 && Ten(-6) == 0.000001 && Ten(-7) == 0.0000001 && Ten(-8) == 0.00000001;
    hide Two, Ten;
    TwoAdd(3, 10, 13);
    TwoAdd(6, 10, 16);
    TwoAdd(9, 10, 19);
    TwoAdd(10, 10, 20);
    TwoAdd(3, 20, 23);
    TwoAdd(6, 20, 26);
  }

  /** The exponent of a decimal with a leading digit brackets its value. */
  lemma DecimalRange(s: seq<digit>, dp: int)
    requires s != [] && s[0] != 0
    ensures var v := Times(Frac(s), Ten(dp)); Ten(dp - 1) <= v < Ten(dp) && v > 0.0
    ensures dp == 0 && s[0] < 5 ==> Times(Frac(s), Ten(dp)) < 0.5
    ensures dp == 0 && s[0] >= 5 ==> 0.5 <= Times(Frac(s), Ten(dp))
  {
    FracRange(s);
    assert 0.1 <= Frac(s);
    assert s[0] < 5 ==> Frac(s) < 0.5;
    assert s[0] >= 5 ==> 0.5 <= Frac(s);
    hide Times, Ten, Frac;
    TenStep(dp - 1);
    TimesOrder(0.1, Frac(s), Ten(dp));
    TimesOrder(Frac(s), 1.0, Ten(dp));
    TimesUnit(Ten(dp));
    TimesScale(0.1, 1.0, Ten(dp));
    TenBase();
    TimesUnit(Frac(s));
  }

  // ----- rounding to an integer -----

  /** The digits up to the point, as a 64-bit integer (with the wrap-around of the type), and
      whether the digits after it round up. */
  method ShouldRoundup(d: Decimal, nd: int) returns (up: bool)
    requires d.Valid()
    ensures up == RoundsUp(d.d[..d.nd], nd, d.trunc)
  {
    if nd < 0 || nd >= d.nd {
      return false;
    }
    if d.d[nd] == 5 && nd + 1 == d.nd {
      if d.trunc {
        return true;
      }
      return nd > 0 && d.d[nd - 1] % 2 != 0;
    }
    return d.d[nd] >= 5;
  }

  predicate RoundsUp(s: seq<digit>, nd: int, trunc: bool) {
    if nd < 0 || nd >= |s| then false
    else if s[nd] == 5 && nd + 1 == |s| then trunc || (nd > 0 && s[nd - 1] % 2 != 0)
    else s[nd] >= 5
  }

  /** What a 64-bit register keeps. */
  function Wrap(n: nat): (r: u64)
    ensures n < W64 ==> r == n
  {
    n % W64
  }

  /** v stands for x: they differ only as `trunc` tells, and no half lies between them. */
  ghost predicate Halves(x: real, v: real, trunc: bool) {
    v <= x && (trunc <==> v < x) && (2.0 * v).Floor == (2.0 * x).Floor
  }

  method RoundedInteger(d: Decimal, ghost x: real) returns (n: u64)
    requires d.Valid() && d.Leading() && d.Trimmed() && Halves(x, d.Value(), d.trunc)
    ensures if d.dp > 20 then n == 0xFFFF_FFFF_FFFF_FFFF else exists m: nat :: NearestInt(x, m) && n == Wrap(m)
    ensures d.dp <= 18 ==> NearestInt(x, n)
  {
    hide Times, Ten, Frac, Rest, NearestInt, IntegerPart, Wrap, Halves;
    if d.dp > 20 {
      return 0xFFFF_FFFF_FFFF_FFFF;
    }
    ghost var s := d.d[..d.nd];
    ghost var exact: nat := 0;
    var i := 0;
    n := 0;
    assert IntegerPart(s, 0, 0) by { IntegerStart(s); }
    while i < d.dp && i < d.nd
      invariant 0 <= i && (i == 0 || i <= d.dp) && i <= d.nd && IntegerPart(s, i, exact)
      invariant n == Wrap(exact)
    {
      ghost var exact0 := exact;
      exact := ReadInteger(s, i, exact);
      WrapStep(exact0, n, d.d[i]);
      n := Wrap(n * 10 + d.d[i]);
      i := i + 1;
    }
    while i < d.dp
      invariant 0 <= i && (i == 0 || i <= d.dp) && IntegerPart(s, i, exact) && (i < d.dp ==> i >= d.nd)
      invariant n == Wrap(exact)
    {
      ghost var exact0 := exact;
      exact := ReadInteger(s, i, exact);
      WrapStep(exact0, n, 0);
      n := Wrap(n * 10);
      i := i + 1;
    }
    var up := ShouldRoundup(d, d.dp);
    RoundInteger(s, d.dp, i, exact, up, x, d.trunc);
    if up {
      WrapNext(exact, n);
      n := Wrap(n + 1);
    }
    ghost var m := if up then exact + 1 else exact;
    assert NearestInt(x, m) && n == Wrap(m);
    if d.dp <= 18 {
      IntegerBound(s, i, exact);
      WrapSmall(m);
    }
  }

  lemma WrapNext(m: nat, n: nat)
    requires n == Wrap(m)
    ensures Wrap(m + 1) == Wrap(n + 1)
  {}

  lemma WrapSmall(n: nat)
    requires n <= 1000000000000000000
    ensures Wrap(n) == n
  {}

  lemma WrapStep(m: nat, n: nat, x: digit)
    requires n == Wrap(m)
    ensures Wrap(10 * m + x) == Wrap(n * 10 + x)
  {
    var q := m / W64;
    assert 10 * m + x == (n * 10 + x) + (10 * q) * W64;
  }

  /** n is the first i digits of 0.s read as an integer. */
  ghost predicate IntegerPart(s: seq<digit>, i: nat, n: nat) {
    && Times(Frac(s), Ten(i)) == n as real + Rest(s, i)
    && (i == 0 ==> n == 0)
    && (0 < i <= |s| ==> n % 2 == s[i - 1] % 2)
  }

  lemma IntegerStart(s: seq<digit>)
    ensures IntegerPart(s, 0, 0)
  {
    RestStart(s);
  }

  lemma ReadInteger(s: seq<digit>, i: nat, n: nat) returns (m: nat)
    requires IntegerPart(s, i, n)
    ensures m == 10 * n + (if i < |s| then s[i] else 0) && IntegerPart(s, i + 1, m)
  {
    hide Times, Ten, Frac, Rest;
    ReadDigit(s, i, n);
    m := 10 * n + (if i < |s| then s[i] else 0);
  }

  lemma IntegerBound(s: seq<digit>, i: nat, n: nat)
    requires IntegerPart(s, i, n) && i <= 18
    ensures n < 1000000000000000000
  {
    RestRange(s, i);
    FracRange(s);
    hide Times, Ten, Frac, Rest, Pow;
    TenMono(i, 18);
    TenNat(18);
    SmallPowers();
    TimesOrder(Frac(s), 1.0, Ten(i));
    TimesUnit(Ten(i));
  }

  lemma RestRange(s: seq<digit>, i: nat)
    ensures 0.0 <= Rest(s, i) < 1.0
    ensures i < |s| && s[i] >= 5 ==> Rest(s, i) >= 0.5
    ensures i < |s| && s[i] > 5 ==> Rest(s, i) > 0.5
    ensures i < |s| && s[i] < 5 ==> Rest(s, i) < 0.5
    ensures i + 1 == |s| && s[i] == 5 ==> Rest(s, i) == 0.5
    ensures i + 1 < |s| && s[i] == 5 && s[|s| - 1] != 0 ==> Rest(s, i) > 0.5
  {
    if i < |s| {
      FracRange(s[i..]);
      assert s[i..] == [s[i]] + s[i + 1..];
      FracCons(s[i], s[i + 1..]);
      FracZero(s[i + 1..]);
      FracRange(s[i + 1..]);
      if i + 1 < |s| && s[|s| - 1] != 0 {
        assert s[i + 1..][|s| - 1 - (i + 1)] != 0;
      }
    }
  }

  /** Rounding by the next digit, and by what is known of the digits cut off, is rounding the exact value
      to nearest, ties to even. */
  lemma RoundInteger(s: seq<digit>, dp: int, i: nat, n: nat, up: bool, x: real, trunc: bool)
    requires IntegerPart(s, i, n) && i == (if dp < 0 then 0 else dp)
    requires s != [] ==> s[|s| - 1] != 0
    requires up == RoundsUp(s, dp, trunc) && Halves(x, Times(Frac(s), Ten(dp)), trunc)
    ensures NearestInt(x, if up then n + 1 else n)
  {
    RestRange(s, i);
    hide NearestInt, Halves;
    if dp < 0 {
      FracRange(s);
      TenMono(dp, -1);
      assert Ten(-1) == 0.1;
      hide Times, Ten, Frac, Rest;
      TimesOrder(Frac(s), 1.0, Ten(dp));
      TimesOrder(0.0, Frac(s), Ten(dp));
      TimesUnit(Ten(dp));
      RoundFraction(Times(Frac(s), Ten(dp)), x, 0, Times(Frac(s), Ten(dp)), up, trunc);
    } else {
      RestEndAt(s, i);
      hide Times, Ten, Frac, Rest;
      RoundFraction(Times(Frac(s), Ten(dp)), x, n, Rest(s, i), up, trunc);
    }
  }

  lemma RoundFraction(v: real, x: real, n: nat, f: real, up: bool, trunc: bool)
    requires v == n as real + f && 0.0 <= f < 1.0 && Halves(x, v, trunc)
    requires if f == 0.5 then up == (trunc || n % 2 == 1) else up == (f > 0.5)
    ensures NearestInt(x, if up then n + 1 else n)
  {
    if f < 0.5 {
      FloorBounds(2.0 * v, 2 * n + 1);
      FloorBounds(2.0 * x, 2 * n + 1);
    } else {
      FloorBounds(2.0 * v, 2 * n + 2);
      FloorBounds(2.0 * x, 2 * n + 2);
    }
  }

  lemma RestEndAt(s: seq<digit>, i: nat)
    ensures i >= |s| ==> Rest(s, i) == 0.0
  {
  }

  // ----- scaling by powers of two until in range [0.5, 1) -----

  /** 2^e is the unit of the last place of the double next to x. */
  ghost predicate Binade(x: real, e: int) {
    0.0 < x < Two(e + 53) && e >= -1074 && (e > -1074 ==> Two(e + 52) <= x)
  }

  lemma {:induction false} FindBinade(x: real, lo: int, hi: int) returns (e: int)
    requires -1022 <= lo < hi && 0.0 < Two(lo) <= x < Two(hi)
    ensures Binade(x, e)
    decreases hi - lo
  {
    hide Two;
    if hi == lo + 1 {
      e := lo - 52;
    } else if x < Two(lo + 1) {
      e := lo - 52;
    } else {
      e := FindBinade(x, lo + 1, hi);
    }
  }

  lemma BinadeOf(x: real, dp: int) returns (e: int)
    requires 0.0 < x < Ten(dp) && dp <= 310
    ensures Binade(x, e)
  {
    hide Two, Ten, Log2Ten;
    if x < Two(-1021) {
      e := -1074;
    } else {
      TenMono(dp, 310);
      Log2TenExact(310);
      assert Log2Ten(310) == 1029 by { LogAt310(); }
      TwoMono(-1022, -1021);
      e := FindBinade(x, -1022, 1030);
    }
  }

  lemma LogAt310()
    ensures Log2Ten(310) == 1029
  {}

  lemma TwoReflect(m: int, n: int)
    requires Two(m) < Two(n)
    ensures m < n
  {
    hide Two;
    if n <= m {
      TwoMono(n, m);
    }
  }

  /** What is in d stands for x, scaled down by 2^f, and is rounded at 2^e. */
  ghost predicate Tracks(x: real, v: real, f: int, trunc: bool, e: int) {
    Sticky(x, Times(v, Two(f)), trunc, e) && Binade(x, e)
  }

  /** How far the unit lies below the leading digit. */
  lemma Depth(x: real, v: real, f: int, trunc: bool, e: int, dp: int)
    requires Tracks(x, v, f, trunc, e) && Ten(dp - 1) <= v && -331 <= dp <= 310
    ensures f - e + Log2Ten(dp - 1) < 53
  {
    hide Two, Ten, Log2Ten, Times, SameCell;
    var l := Log2Ten(dp - 1);
    Log2TenExact(dp - 1);
    TimesOrder(Two(l), v, Two(f));
    TwoAdd(l, f, l + f);
    TwoReflect(l + f, e + 53);
  }

  /** So the unit is always within the 800 places. */
  lemma Room(x: real, v: real, f: int, trunc: bool, e: int, dp: int)
    requires Tracks(x, v, f, trunc, e) && Ten(dp - 1) <= v && -331 <= dp <= 0 && (f <= 0 || dp >= -9)
    ensures 1 + f - e <= MAX_DNUM - dp
  {
    hide Two, Ten, Times, Sticky;
    Depth(x, v, f, trunc, e, dp);
    assert e >= -1074;
  }

  lemma TracksShift(x: real, v: real, w: real, f: int, k: int, before: bool, after: bool, e: int, depth: int)
    requires Tracks(x, v, f, before, e) && Shifted(v, w, k, before, after)
    requires Cells(v, w, k, depth) && 1 + f - k - e <= depth
    ensures Tracks(x, w, f - k, after, e)
  {
    hide Two, Times, Sticky, SameCell;
    StickyStep(x, v, w, f, k, before, after, e);
  }

  function Inverse(v: real): real
    requires v > 0.0
  {
    1.0 / v
  }

  /** The value nearly doubles, so floor(1/v) drops: the second loop ends. */
  lemma InverseDrops(v: real, w: real)
    requires 0.0 < v < 0.5 && 1.8 * v <= w
    ensures Inverse(w).Floor < Inverse(v).Floor
    ensures Inverse(w).Floor >= 0
  {
    var x, y := Inverse(v), Inverse(w);
    assert Times(x, v) == 1.0 && Times(y, w) == 1.0 && y > 0.0;
    hide Times, Inverse;
    TimesDouble(1.0, v);
    TimesUnit(v);
    TimesOrder(2.0, x, v);
    TimesOrder(1.8 * v, w, y);
    TimesComm(y, w);
    TimesScale(1.8, v, y);
    TimesComm(v, y);
    TimesScale(1.8, y, v);
    TimesOrder(1.8 * y, x, v);
  }

  lemma HalfDrops(v: real, w: real, k: nat)
    requires 1.0 <= v && k >= 1 && 0.0 <= w <= Times(v, Two(0 - k))
    ensures w.Floor < v.Floor && w.Floor >= 0
  {
    hide Times, Two;
    TwoMono(0 - k, -1);
    TwoStep(-1);
    TwoBase();
    TimesComm(v, Two(0 - k));
    TimesOrder(Two(0 - k), 0.5, v);
    TimesOrder(Two(0 - k), Two(-1), v);
    TimesScale(0.5, 1.0, v);
    TimesUnit(v);
  }

  method ScaleDown(d: Decimal, ghost x: real, ghost e: int) returns (exp2: int)
    requires d.Valid() && d.Leading() && d.nd > 0 && -331 <= d.dp <= 310 && Tracks(x, d.Value(), 0, d.trunc, e)
    modifies d, d.d
    ensures d.Valid() && d.Leading() && d.nd > 0 && -331 <= d.dp <= 0 && d.neg == old(d.neg)
    ensures exp2 <= 0 || d.dp >= -9
    ensures Tracks(x, d.Value(), exp2, d.trunc, e)
  {
    hide Times, Two, Ten, Frac, Tracks, Shifted, Cells;
    exp2 := 0;
    while d.dp > 0
      invariant d.Valid() && d.Leading() && d.nd > 0 && d.neg == old(d.neg) && -331 <= d.dp <= 310
      invariant Tracks(x, d.Value(), exp2, d.trunc, e) && (exp2 <= 0 || d.dp >= -9)
      decreases d.Value().Floor
    {
      var n: int := Step(d.dp);
      ghost var u, t, p := d.Value(), d.trunc, d.dp;
      DecimalAbove(d.d[..d.nd], d.dp);
      DecimalRange(d.d[..d.nd], d.dp);
      Depth(x, u, exp2, t, e, p);
      d.DecimalShift(-n);
      DecimalRange(d.d[..d.nd], d.dp);
      TracksShift(x, u, d.Value(), exp2, -n, t, d.trunc, e, MAX_DNUM - p);
      ShiftedBelow(u, d.Value(), -n, t, d.trunc);
      HalfDrops(u, d.Value(), n);
      NotTooSmall(u, n, d.dp);
      exp2 := exp2 + n;
    }
  }

  lemma ShiftedBelow(v: real, u: real, k: int, before: bool, trunc: bool)
    requires Shifted(v, u, k, before, trunc)
    ensures u <= Times(v, Two(k))
  {}

  /** One step down from 1 or more. */
  lemma NotTooSmall(u: real, n: nat, dp: int)
    requires u >= 1.0 && n <= 27 && Times(u, Two(0 - n)) < Ten(dp)
    ensures dp >= -9
  {
    NineSteps();
    hide Times, Two, Ten;
    TwoMono(-27, 0 - n);
    TimesOrder(1.0, u, Two(0 - n));
    TimesUnit(Two(0 - n));
    TwoAdd(27, -27, 0);
    TwoBase();
    TimesOrder(Times(Ten(-9), Two(27)), 1.0, Two(-27));
    TimesAssoc(Ten(-9), Two(27), Two(-27));
    TimesUnit(Ten(-9));
    TimesUnit(Two(-27));
    if dp < -9 {
      TenMono(dp, -9);
    }
  }

  lemma DecimalAbove(s: seq<digit>, dp: int)
    requires s != [] && s[0] != 0 && dp > 0
    ensures Times(Frac(s), Ten(dp)) >= 1.0
  {
    DecimalRange(s, dp);
    hide Times, Frac;
    TenMono(0, dp - 1);
    TenBase();
  }

  method ScaleUp(d: Decimal, exp: int, ghost x: real, ghost e: int) returns (exp2: int)
    requires d.Valid() && d.Leading() && d.nd > 0 && -331 <= d.dp <= 0
    requires Tracks(x, d.Value(), exp, d.trunc, e) && (exp <= 0 || d.dp >= -9)
    modifies d, d.d
    ensures d.Valid() && d.Leading() && d.nd > 0 && d.neg == old(d.neg)
    ensures 0.5 <= d.Value() < 1.0
    ensures Tracks(x, d.Value(), exp2, d.trunc, e)
  {
    hide Times, Two, Ten, Frac, Tracks, Inverse, Shifted, Cells;
    exp2 := exp;
    DecimalRange(d.d[..d.nd], d.dp);
    while d.dp < 0 || (d.dp == 0 && d.d[0] < 5)
      invariant d.Valid() && d.Leading() && d.nd > 0 && d.neg == old(d.neg)
      invariant -331 <= d.dp <= 0 && d.Value() > 0.0 && Tracks(x, d.Value(), exp2, d.trunc, e)
      invariant exp2 <= 0 || d.dp >= -9
      decreases Inverse(d.Value()).Floor
    {
      var n := Step(-d.dp);
      ghost var u, t, p := d.Value(), d.trunc, d.dp;
      DecimalBelow(d.d[..d.nd], d.dp);
      DecimalRange(d.d[..d.nd], d.dp);
      Room(x, u, exp2, t, e, p);
      d.DecimalShift(n);
      ShiftedBelow(u, d.Value(), n, t, d.trunc);
      StillBelow(d.d[..d.nd], d.dp);
      GrowsEnough(u, d.Value(), n);
      TracksShift(x, u, d.Value(), exp2, n, t, d.trunc, e, MAX_DNUM - p - n);
      InverseDrops(u, d.Value());
      exp2 := exp2 - n;
    }
    DecimalRange(d.d[..d.nd], d.dp);
    TenBase();
  }

  lemma DecimalBelow(s: seq<digit>, dp: int)
    requires s != [] && s[0] != 0 && (dp < 0 || (dp == 0 && s[0] < 5))
    ensures var v := Times(Frac(s), Ten(dp));
            0.0 < v < 0.5 && Times(v, Two(Step(-dp))) < 1.0
  {
    DecimalRange(s, dp);
    TwoBase();
    if dp < 0 {
      StepBelowOne(-dp);
      TenMono(dp, -1);
      assert Ten(-1) == 0.1;
      hide Times, Ten, Frac, Two;
      TimesOrder(Times(Frac(s), Ten(dp)), Ten(dp), Two(Step(-dp)));
    } else {
      hide Ten, Frac, Two, Times;
      TimesDouble(Times(Frac(s), Ten(dp)), 1.0);
      TimesUnit(Times(Frac(s), Ten(dp)));
    }
  }

  lemma StillBelow(s: seq<digit>, dp: int)
    requires s != [] && s[0] != 0 && Times(Frac(s), Ten(dp)) < 1.0
    ensures dp <= 0 && Times(Frac(s), Ten(dp)) > 0.0
  {
    DecimalRange(s, dp);
    if dp > 0 {
      DecimalAbove(s, dp);
    }
  }

  lemma GrowsEnough(u: real, w: real, n: nat)
    requires u > 0.0 && n >= 1 && Times(u, Two(n)) <= 1.1 * w
    ensures 1.8 * u <= w
  {
    hide Times, Two;
    TwoMono(1, n);
    TwoBase();
    TimesComm(u, Two(n));
    TimesOrder(2.0, Two(n), u);
    TimesDouble(1.0, u);
    TimesUnit(u);
  }

  // ----- the whole path -----

  /** 485/146 < log2(10). */
  lemma TenAboveTwo(n: nat, k: nat)
    requires 146 * k <= 485 * n
    ensures Two(k) <= Ten(n)
  {
    Log2TenBracket(n, k);
    TwoNat(k);
    TenNat(n);
  }

  /** Below half of the smallest subnormal. */
  lemma Underflow(v: real, dp: int)
    requires 0.0 <= v < Ten(dp) && dp < -330
    ensures Nearest(v, 0)
  {
    hide Two, Ten, Times, Pow, Nearest, Value;
    TenAboveTwo(331, 1099);
    TenMono(dp, -331);
    TwoAdd(1099, -1099, 0);
    TenAdd(331, -331, 0);
    TwoBase();
    TenBase();
    // 10^-331 <= 2^-1099 <= 2^-1075
    TimesOrder(Two(1099), Ten(331), Ten(-331));
    TimesComm(Two(1099), Two(-1099));
    TimesComm(Two(1099), Ten(-331));
    TimesOrder(Ten(-331), Two(-1099), Two(1099));
    TwoMono(-1099, -1075);
    TwoStep(-1075);
    TinyRounds(v);
  }

  lemma TinyRounds(v: real)
    requires 0.0 <= v && 2.0 * v < Two(-1074)
    ensures Nearest(v, 0)
  {
    NearestIsRounds(v, 0);
    ValueNonNegative(0);
    ValueStep(0);
    hide Two, Nearest, Value;
  }

  /** From 2^1024 on, the nearest pattern is infinity. */
  lemma HugeRounds(v: real)
    requires v >= Two(1024)
    ensures Nearest(v, INFINITY)
  {
    NearestIsRounds(v, INFINITY);
    ValueLess(INFINITY - 1, INFINITY);
    ValueAt(2046, P53);
    TwoFiftyThree();
    hide Two, Nearest, Value, Times;
    TwoAdd(53, 971, 1024);
  }

  lemma TwoFiftyThree()
    ensures Two(53) == P53 as real && Two(52) == P52 as real
  {
    assert Two(10) == 1024.0 && Two(3) == 8.0;
    hide Two;
    TwoAdd(10, 10, 20);
    TwoAdd(20, 20, 40);
    TwoAdd(40, 10, 50);
    TwoAdd(50, 3, 53);
    TwoStep(52);
  }

  lemma Overflow(v: real, dp: int)
    requires v >= Ten(dp - 1) && dp > 310
    ensures Nearest(v, INFINITY)
  {
    hide Two, Ten, Pow, Nearest;
    TenAboveTwo(310, 1029);
    TenMono(310, dp - 1);
    TwoMono(1024, 1029);
    HugeRounds(v);
  }

  /** The extracted integer scaled back. */
  lemma Extracted(v: real, x: real, exp2: int, m: nat)
    requires Binade(v, exp2 - 52) && x == Times(v, Two(52 - exp2)) && NearestInt(x, m)
    requires -1022 <= exp2 <= 1023
    ensures m <= P53 && (m >= P52 || exp2 == -1022) && Nearest(v, (exp2 + 1022) * P52 + m)
  {
    TwoFiftyThree();
    hide Times, Two, Nearest, NearestInt;
    var e := exp2 - 52;
    TwoAdd(e + 53, 0 - e, 53);
    TwoAdd(e + 52, 0 - e, 52);
    TimesOrder(v, Two(e + 53), Two(0 - e));
    TimesOrder(Two(e + 52), v, Two(0 - e));
    TimesOrder(0.0, v, Two(0 - e));
    TimesUnit(Two(0 - e));
    TwoAdd(0 - e, e, 0);
    TwoBase();
    TimesAssoc(v, Two(0 - e), Two(e));
    TimesUnit(v);
    RoundSignificand(v, x, exp2 + 1023, m);
  }

  /** Assembles sign, exponent and fraction fields. */
  function Assembled(mant: nat, exp2: int, neg: bool): (bits: nat)
    requires -1023 <= exp2 <= 1024
  {
    (exp2 + 1023) * P52 + mant % P52 + if neg then TOP else 0
  }

  /** The decimal holds x, cut to 800 digits; `trunc` tells whether that lost anything. */
  ghost predicate Holds(d: Decimal, x: real)
    requires d.Valid()
    reads d, d.d
  {
    Cut(x, d.Value(), MAX_DNUM - d.dp) && (d.trunc <==> d.Value() < x) && (d.nd == 0 ==> !d.trunc)
  }

  /** include/sonic/internal/atof_native.h, DecimalToF64.  The bits are those of the double nearest to
      the value the decimal was filled from, however many of its digits were cut off there or later. */
  method DecimalToF64(d: Decimal, ghost x: real) returns (bits: nat)
    requires d.Valid() && d.Leading() && Holds(d, x)
    modifies d, d.d
    ensures exists b: nat :: bits == b + (if old(d.neg) then TOP else 0) && Nearest(x, b)
  {
    ghost var b: nat := 0;
    if d.nd == 0 {
      ZeroNearest(d.d[..d.nd], d.dp);
      bits := Assembled(0, -1023, d.neg);
      assert bits == b + (if d.neg then TOP else 0);
      return;
    }
    DecimalRange(d.d[..d.nd], d.dp);
    hide Times, Two, Ten, Frac, Tracks, Nearest, NearestInt, Cut;
    CutRange(x, d.Value(), d.dp);
    if d.dp > 310 {
      Overflow(x, d.dp);
      bits := Assembled(0, 0x7FF - 1023, d.neg);
      assert bits == INFINITY + (if d.neg then TOP else 0);
      return;
    }
    if d.dp < -330 {
      Underflow(x, d.dp);
      bits := Assembled(0, -1023, d.neg);
      assert bits == b + (if d.neg then TOP else 0);
      return;
    }
    ghost var e := BinadeOf(x, d.dp);
    TracksStart(x, d.Value(), d.dp, d.trunc, e);
    var exp2 := ScaleDown(d, x, e);
    exp2 := ScaleUp(d, exp2, x, e);
    bits, b := Extract53(d, exp2 - 1, x, e);
  }

  lemma CutRange(x: real, v: real, dp: int)
    requires Cut(x, v, MAX_DNUM - dp) && 0.0 < v < Ten(dp)
    ensures v <= x < Ten(dp)
  {
    hide Times, Ten;
    CutBelow(x, v, MAX_DNUM - dp, dp);
  }

  lemma TracksStart(x: real, v: real, dp: int, trunc: bool, e: int)
    requires Cut(x, v, MAX_DNUM - dp) && (trunc <==> v < x) && Binade(x, e) && Ten(dp - 1) <= v
    requires -330 <= dp <= 310
    ensures Tracks(x, v, 0, trunc, e)
  {
    hide Times, Two, Ten;
    TwoBase();
    TimesUnit(v);
    StartDepth(x, v, e, dp);
    CutCell(x, v, MAX_DNUM - dp, 1 - e);
  }

  lemma StartDepth(x: real, v: real, e: int, dp: int)
    requires Ten(dp - 1) <= v <= x && Binade(x, e) && -330 <= dp <= 310
    ensures 1 - e <= MAX_DNUM - dp
  {
    hide Times, Two, Ten;
    Log2TenExact(dp - 1);
    TwoReflect(Log2Ten(dp - 1), e + 53);
  }

  lemma ZeroNearest(s: seq<digit>, dp: int)
    requires s == []
    ensures Nearest(Times(Frac(s), Ten(dp)), 0)
  {
    TimesUnit(Ten(dp));
    assert Frac(s) == 0.0;
    hide Times, Ten, Frac, Two, Nearest;
    TinyRounds(0.0);
  }

  /** The binade of what is left is the binade of the exact value. */
  lemma SameBinade(x: real, v: real, f: int, trunc: bool, e: int)
    requires Tracks(x, v, f, trunc, e) && 0.5 <= v < 1.0
    ensures Two(f - 1) <= x && e == if f - 1 < -1022 then -1074 else f - 1 - 52
  {
    hide Times, Two, SameCell;
    var u := Times(v, Two(f));
    TwoStep(f - 1);
    TimesOrder(0.5, v, Two(f));
    TimesOrder(v, 1.0, Two(f));
    TimesUnit(Two(f));
    TimesScale(0.5, 1.0, Two(f));
    TwoReflect(f - 1, e + 53);
    if e > -1074 && f < e + 53 {
      TwoMono(f, e + 52);
      NotBelow(x, u, e);
    }
  }

  /** A cut does not cross into the binade below. */
  lemma NotBelow(x: real, u: real, e: int)
    requires SameCell(x, u, 1 - e) && Two(e + 52) <= x
    ensures Two(e + 52) <= u
  {
    TwoFiftyThree();
    hide Times, Two;
    TwoAdd(e + 52, 1 - e, 53);
    TimesOrder(Two(e + 52), x, Two(1 - e));
    TimesOrder(Two(e + 52), u, Two(1 - e));
    FloorBounds(Times(x, Two(1 - e)), P53);
    FloorBounds(Times(u, Two(1 - e)), P53);
  }

  /** With 53 bits before the point what is left rounds like the exact value. */
  lemma HalvesOf(x: real, v: real, e: int, trunc: bool)
    requires Tracks(x, v, e, trunc, e)
    ensures Halves(Times(x, Two(0 - e)), v, trunc)
  {
    hide Times, Two;
    var u := Times(v, Two(e));
    TwoAdd(e, 0 - e, 0);
    TwoBase();
    TimesAssoc(v, Two(e), Two(0 - e));
    TimesUnit(v);
    TimesOrder(u, x, Two(0 - e));
    TwoStep(0 - e);
    assert 0 - e + 1 == 1 - e;
    TimesDouble(x, Two(0 - e));
    TimesDouble(u, Two(0 - e));
  }

  /** From [0.5, 1) * 2^(exp+1) to the pattern: subnormals are moved up first, then 53 bits
      are extracted and rounded. */
  method Extract53(d: Decimal, exp: int, ghost x: real, ghost e: int) returns (bits: nat, ghost b: nat)
    requires d.Valid() && d.Leading() && d.nd > 0 && 0.5 <= d.Value() < 1.0
    requires Tracks(x, d.Value(), exp + 1, d.trunc, e)
    modifies d, d.d
    ensures bits == b + (if old(d.neg) then TOP else 0) && Nearest(x, b)
  {
    hide Times, Two, Ten, Frac, Tracks, Nearest, NearestInt, Shifted, Cells, Halves;
    var exp2, mant := exp, 0;
    SameBinade(x, d.Value(), exp + 1, d.trunc, e);
    StillBelow(d.d[..d.nd], d.dp);
    if exp2 < -1022 {
      var n := -1022 - exp2;
      ghost var u, t, p := d.Value(), d.trunc, d.dp;
      d.DecimalShift(-n);
      ShiftedBelow(u, d.Value(), -n, t, d.trunc);
      exp2 := exp2 + n;
      TracksShift(x, u, d.Value(), exp + 1, -n, t, d.trunc, e, MAX_DNUM - p);
      Shrinks(u, d.Value(), n);
      DecimalRange(d.d[..d.nd], d.dp);
    }
    if exp2 + 1023 >= 0x7FF {
      TwoMono(1024, exp2);
      HugeRounds(x);
      bits, b := Assembled(0, 0x7FF - 1023, d.neg), INFINITY;
      return;
    }
    mant := Integer53(d, exp2, x, e);
    TracksBinade(x, d.Value(), exp2 - 52, d.trunc, e);
    Extracted(x, Times(x, Two(52 - exp2)), exp2, mant);
    b := (exp2 + 1022) * P52 + mant;
    bits := Pack(mant, exp2, d.neg);
  }

  lemma TracksBinade(x: real, v: real, f: int, trunc: bool, e: int)
    requires Tracks(x, v, f, trunc, e)
    ensures Binade(x, e)
  {}

  /** The 53 bits before the point, rounded. */
  method Integer53(d: Decimal, exp2: int, ghost x: real, ghost e: int) returns (mant: nat)
    requires d.Valid() && d.Leading() && d.nd > 0 && 0.0 < d.Value() < 1.0 && d.dp <= 0
    requires Tracks(x, d.Value(), exp2 + 1, d.trunc, e) && e == exp2 - 52
    modifies d, d.d
    ensures d.Valid() && d.neg == old(d.neg) && Tracks(x, d.Value(), exp2 - 52, d.trunc, e)
    ensures NearestInt(Times(x, Two(52 - exp2)), mant)
  {
    hide Times, Two, Ten, Frac, Tracks, NearestInt, Shifted, Cells, Halves;
    ghost var u, t, p := d.Value(), d.trunc, d.dp;
    d.DecimalShift(53);
    ShiftedBelow(u, d.Value(), 53, t, d.trunc);
    TracksShift(x, u, d.Value(), exp2 + 1, 53, t, d.trunc, e, MAX_DNUM - p - 53);
    HalvesOf(x, d.Value(), e, d.trunc);
    assert 0 - e == 52 - exp2;
    mant := RoundedInteger(d, Times(x, Two(52 - exp2)));
    DecimalRange(d.d[..d.nd], d.dp);
    FiftyThreeBits(u, d.Value(), d.dp);
  }

  /** Sign, exponent and fraction; rounding may have carried into the next binade. */
  method Pack(m: nat, exp: int, neg: bool) returns (bits: nat)
    requires m <= P53 && (m >= P52 || exp == -1022) && -1022 <= exp <= 1023
    ensures bits == (exp + 1022) * P52 + m + if neg then TOP else 0
  {
    var mant, exp2 := m, exp;
    if mant == 2 * P52 {
      mant := mant / 2;
      exp2 := exp2 + 1;
      if exp2 + 1023 >= 0x7FF {
        bits := Assembled(0, 0x7FF - 1023, neg);
        return;
      }
    }
    if (mant / P52) % 2 == 0 {
      exp2 := -1023;
    }
    bits := Assembled(mant, exp2, neg);
  }

  lemma Shrinks(u: real, w: real, n: nat)
    requires 0.0 < u < 1.0 && w <= Times(u, Two(0 - n))
    ensures w < 1.0
  {
    hide Times, Two;
    TwoMono(0 - n, 0);
    TwoBase();
    TimesOrder(u, 1.0, Two(0 - n));
    TimesUnit(Two(0 - n));
  }

  /** The extracted integer has at most 16 digits. */
  lemma FiftyThreeBits(u: real, w: real, dp: int)
    requires u < 1.0 && w <= Times(u, Two(53)) && Ten(dp - 1) <= w
    ensures dp <= 18
  {
    hide Times, Two, Ten, Pow;
    TwoFiftyThree();
    TenNat(18);
    SmallPowers();
    TimesOrder(u, 1.0, Two(53));
    TimesUnit(Two(53));
    if dp > 18 {
      TenMono(18, dp - 1);
    }
  }
}
