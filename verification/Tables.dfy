/** Which literals the table-driven conversions answer, said of the literal. */
module Tables {
  import opened Powers
  import opened Digits
  import opened Binary64
  import opened Json
  import opened Pow10Table
  import opened EiselLemire
  import opened NormalFast
  import opened FloatingFast
  import opened NumberScan
  import opened NumberValue

  /** The scanned mantissa, its power of ten, and whether digits behind it are reported as dropped. */
  function Mantissa(n: Number): nat {
    var d, kept := n.whole + n.frac, KeptCount(n.whole, n.frac);
    if kept <= |d| then NatOf(d[..kept]) else NatOf(d)
  }

  function Scale10(n: Number): int { |n.whole| + SignedExponent(n.exp) - KeptCount(n.whole, n.frac) }

  predicate Truncated(n: Number) { TruncHonest(n) && KeptCount(n.whole, n.frac) < |n.whole + n.frac| }

  lemma DescribedIs(x: Literal, n: Number, kept: nat)
    requires x.Scaled? && Describes(x, n, kept)
    ensures x.man == Mantissa(n) && x.exp10 == Scale10(n) && x.trunc == Truncated(n) && x.neg == n.neg
    ensures x.man + 1 < W64
  {
    hide NatOf, SignedExponent, KeptCount;
  }

  /** One floating-point operation or two are exact. */
  ghost predicate ByOperation(m: nat, e: int) { m < P52 && -22 <= e <= 37 && FastGives(m, e) }

  ghost predicate ByProduct(m: nat, e: int)
    requires m < W64
  {
    m > 0 && -307 < e < 288 && !Doubtful(Normal(m), Pow10M128(e))
  }

  ghost predicate ByTable(m: nat, e: int)
    requires m < W64
  {
    m > 0 && Decides(m, e)
  }

  /** Both ends of a bracket have the same nearest double. */
  ghost predicate SameDouble(u: real, v: real) { exists b: nat :: Nearest(u, b) && Nearest(v, b) }

  /** Some conversion before the fallback answers. */
  ghost predicate Answered(m: nat, e: int, trunc: bool)
    requires m + 1 < W64
  {
    || ByOperation(m, e)
    || (!trunc && ByProduct(m, e))
    || (ByTable(m, e) && (trunc ==> ByTable(m + 1, e) && SameDouble(Exact(m, e), Exact(m + 1, e))))
  }

  ghost predicate Tabled(n: Number) {
    Mantissa(n) + 1 < W64 && Answered(Mantissa(n), Scale10(n), Truncated(n))
  }

  // ---- such literals have normal doubles, or are zero ----

  /** No table-driven conversion gives such a double. */
  ghost predicate BeyondTables(v: real) { exists b: nat :: Nearest(v, b) && (0 < b < P52 || b == INFINITY) }

  lemma WithinTables(v: real, b: nat)
    requires Nearest(v, b) && (b == 0 || P52 <= b < INFINITY)
    ensures !BeyondTables(v)
  {
    hide Nearest;
    if BeyondTables(v) {
      var c: nat :| Nearest(v, c) && (0 < c < P52 || c == INFINITY);
      NearestUnique(v, b, c);
    }
  }

  /** Between two values that round to normal doubles are only such values. */
  lemma NormalWithin(u: real, v: real, w: real)
    requires u <= v <= w && RoundsNormal(u) && RoundsNormal(w)
    ensures !BeyondTables(v)
  {
    hide Nearest, Two, Times;
    LeastPositive();
    var b := NearestOf(v);
    if b == INFINITY {
      InfinityAbove(v, w);
    } else {
      AboveSubnormal(v, b);
      WithinTables(v, b);
    }
  }

  lemma LeastPositive()
    ensures Times((2 * P53 - 1) as real, Two(-1076)) > 0.0
  {
    TimesPositive((2 * P53 - 1) as real, Two(-1076));
  }

  /** The exponents of the product path keep clear of both ends. */
  lemma ProductIsNormal(m: nat, e: int)
    requires 0 < m < W64 && -307 < e < 288
    ensures RoundsNormal(Exact(m, e))
  {
    hide Two, Ten, Times, Nearest;
    var lo, hi := -306, 287;
    Log2TenExact(lo);
    Log2TenExact(hi);
    assert Log2Ten(lo) == -1017 && Log2Ten(hi) == 953;
    TenMono(lo, e);
    TenMono(e, hi);
    TwoMono(-1022, -1017);
    TimesOrder(1.0, m as real, Ten(e));
    TimesUnit(Ten(e));
    Two127();
    TimesOrder(m as real, Two(64), Ten(e));
    TimesComm(Two(64), Ten(e));
    TimesOrder(Ten(e), Two(954), Two(64));
    TwoAdd(954, 64, 1018);
    TwoMono(1018, 1022);
    TwoStep(1022);
    WellInside(Exact(m, e));
  }

  /** So what only the fallback can give is not answered before. */
  lemma TabledIsNormal(x: Literal, n: Number, kept: nat)
    requires x.Scaled? && Describes(x, n, kept) && Tabled(n)
    ensures !BeyondTables(Seen(n))
  {
    hide Exact, Nearest, Seen, RoundsNormal, BeyondTables, Doubtful, Undecided, FastGives;
    DescribedIs(x, n, kept);
    SeenBracket(x, n, kept);
    var m, e := x.man, x.exp10;
    if ByOperation(m, e) {
      FastIsFinite(m, e);
      NoLongMantissa(x, n, kept);
      WithinTables(Seen(n), NearestTo(m, e));
    } else if !x.trunc && ByProduct(m, e) {
      ProductIsNormal(m, e);
      NormalWithin(Exact(m, e), Seen(n), Exact(m, e));
    } else if !x.trunc {
      NormalWithin(Exact(m, e), Seen(n), Exact(m, e));
    } else {
      NormalWithin(Exact(m, e), Seen(n), Exact(m + 1, e));
    }
  }

  lemma NoLongMantissa(x: Literal, n: Number, kept: nat)
    requires x.Scaled? && Describes(x, n, kept) && x.man < P52
    ensures !x.trunc
  {}

  ghost function NearestTo(m: nat, e: int): (b: nat)
    ensures Nearest(Exact(m, e), b)
  {
    ExactValue(m, e);
    NearestOf(Exact(m, e))
  }
}
