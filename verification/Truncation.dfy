/** Dropping digits and remembering that something was dropped.  A cut to many decimal places stays on
    the same side of every coarse binary fraction, so a value cut at every step still rounds as the exact
    value does, as long as it is known whether the cuts lost anything. */
module Truncation {
  import opened Powers

  /** No multiple of 2^-q lies between v and w. */
  ghost predicate SameCell(w: real, v: real, q: int) { Times(w, Two(q)).Floor == Times(v, Two(q)).Floor }

  /** v is w without what is below the a-th place after the point. */
  ghost predicate Cut(w: real, v: real, a: int) { v <= w && Times(w, Ten(a)).Floor == Times(v, Ten(a)).Floor }

  lemma FloorBelow(y: real, z: real, n: nat)
    requires n > 0 && Times(y, n as real).Floor == Times(z, n as real).Floor
    ensures y.Floor <= z.Floor
  {
    var f := y.Floor;
    hide Times;
    TimesOrder(f as real, y, n as real);
    TimesInt(f, n);
    assert f * n <= Times(y, n as real).Floor;
    TimesOrder(f as real, z, n as real);
  }

  lemma TimesInt(f: int, n: nat)
    ensures Times(f as real, n as real) == (f * n) as real
  {}

  /** A finer grid decides the coarser one. */
  lemma FloorScale(y: real, z: real, n: nat)
    requires n > 0 && Times(y, n as real).Floor == Times(z, n as real).Floor
    ensures y.Floor == z.Floor
  {
    hide Times;
    FloorBelow(y, z, n);
    FloorBelow(z, y, n);
  }

  /** 10^a is 2^q times a natural. */
  lemma TenGrid(a: nat, q: int) returns (n: nat)
    requires q <= a
    ensures n > 0 && Ten(a) == Times(Two(q), n as real)
  {
    var b := a - q;
    PowProduct(2, 5, a);
    TenNat(a);
    TwoNat(a);
    TwoNat(b);
    TimesNat(Pow(2, a), Pow(5, a), Pow(10, a));
    n := Pow(2, b) * Pow(5, a);
    TimesNat(Pow(2, b), Pow(5, a), n);
    TimesPositive(Pow(2, b) as real, Pow(5, a) as real);
    hide Ten, Two, Pow, Times;
    TwoAdd(q, b, a);
    TimesAssoc(Two(q), Two(b), Pow(5, a) as real);
  }

  lemma CutCell(w: real, v: real, a: nat, q: int)
    requires Cut(w, v, a) && q <= a
    ensures SameCell(w, v, q)
  {
    hide Times, Two, Ten;
    var n := TenGrid(a, q);
    TimesAssoc(w, Two(q), n as real);
    TimesAssoc(v, Two(q), n as real);
    FloorScale(Times(w, Two(q)), Times(v, Two(q)), n);
  }

  /** A cut does not take a power of ten away. */
  lemma CutBelow(w: real, v: real, a: int, m: int)
    requires Cut(w, v, a) && v < Ten(m) && m + a >= 0
    ensures w < Ten(m)
  {
    hide Times, Ten, Pow;
    TenAdd(m, a, m + a);
    TenNat(m + a);
    TimesOrder(v, Ten(m), Ten(a));
    TimesOrder(w, Ten(m), Ten(a));
    FloorLess(Times(w, Ten(a)), Times(v, Ten(a)), Pow(10, m + a));
  }

  lemma FloorLess(y: real, z: real, p: int)
    requires y.Floor == z.Floor && z < p as real
    ensures y < p as real
  {
    FloorBounds(z, p);
    FloorBounds(y, p);
  }

  lemma FloorBounds(y: real, p: int)
    ensures y < p as real <==> y.Floor < p
  {
    var f := y.Floor;
    assert f as real <= y < (f + 1) as real;
  }

  /** u stands for the exact value x: no half of a unit of 2^e lies between them, and `trunc` tells
      whether they differ. */
  ghost predicate Sticky(x: real, u: real, trunc: bool, e: int) {
    u <= x && (trunc <==> u < x) && SameCell(x, u, 1 - e)
  }

  /** A step that multiplies by 2^k and cuts: what is scaled back still stands for x. */
  lemma StickyStep(x: real, v: real, w: real, f: int, k: int, before: bool, after: bool, e: int)
    requires Sticky(x, Times(v, Two(f)), before, e)
    requires w <= Times(v, Two(k)) && (after <==> before || w < Times(v, Two(k)))
    requires SameCell(Times(v, Two(k)), w, 1 + f - k - e)
    ensures Sticky(x, Times(w, Two(f - k)), after, e)
  {
    hide Times, Two;
    var u := Times(v, Two(k));
    TimesAssoc(v, Two(k), Two(f - k));
    TwoAdd(k, f - k, f);
    TimesOrder(w, u, Two(f - k));
    TwoAdd(f - k, 1 - e, 1 + f - k - e);
    TimesAssoc(u, Two(f - k), Two(1 - e));
    TimesAssoc(w, Two(f - k), Two(1 - e));
  }
}
