/** The slow path's decimal number: up to 800 digits that shifts rewrite in place. */
module Decimals {
  import opened Powers
  import opened Digits
  import opened LeftShift
  import opened RightShift
  import opened Truncation

  const MAX_DNUM := 800
  const MAX_SHIFT := 60

  /** Some digit has no room and is not zero. */
  ghost predicate Overflows(out: seq<digit>, w: int, room: nat) {
    exists i | 0 <= i < |out| :: w + i >= room && out[i] != 0
  }

  /** Digit i of out sits at place w + i when there is room; trunc tells whether it was set before or a
      digit other than zero has no room. */
  ghost predicate Stored(out: seq<digit>, w: int, buf: seq<digit>, before: bool, trunc: bool) {
    && (forall i | 0 <= i < |out| :: 0 <= w + i < |buf| ==> buf[w + i] == out[i])
    && (trunc <==> before || Overflows(out, w, |buf|))
  }

  lemma OverflowsCons(out: seq<digit>, w: int, room: nat, x: digit)
    ensures Overflows([x] + out, w - 1, room) <==> Overflows(out, w, room) || (w - 1 >= room && x != 0)
  {
    var more := [x] + out;
    if Overflows(out, w, room) {
      var i :| 0 <= i < |out| && w + i >= room && out[i] != 0;
      assert more[i + 1] == out[i];
    }
    if w - 1 >= room && x != 0 {
      assert more[0] == x;
    }
    if Overflows(more, w - 1, room) {
      var i :| 0 <= i < |more| && w - 1 + i >= room && more[i] != 0;
      assert i > 0 ==> out[i - 1] == more[i];
    }
  }

  lemma OverflowsSnoc(out: seq<digit>, room: nat, x: digit)
    ensures Overflows(out + [x], 0, room) <==> Overflows(out, 0, room) || (|out| >= room && x != 0)
  {
    var more := out + [x];
    if Overflows(out, 0, room) {
      var i :| 0 <= i < |out| && 0 + i >= room && out[i] != 0;
      assert more[i] == out[i];
    }
    if |out| >= room && x != 0 {
      assert more[|out|] == x;
    }
    if Overflows(more, 0, room) {
      var i :| 0 <= i < |more| && 0 + i >= room && more[i] != 0;
      assert i < |out| ==> out[i] == more[i];
    }
  }

  lemma StoredNil(w: int, buf: seq<digit>, trunc: bool)
    ensures Stored([], w, buf, trunc, trunc)
  {
  }

  lemma StoredConsAll(out: seq<digit>, w: int, buf: seq<digit>, before: bool, trunc: bool, x: digit)
    requires Stored(out, w, buf, before, trunc) && w >= 1
    ensures Stored([x] + out, w - 1, if w - 1 < |buf| then buf[w - 1 := x] else buf, before,
                   trunc || (w - 1 >= |buf| && x != 0))
  {
    hide Overflows;
    OverflowsCons(out, w, |buf|, x);
    var out', buf' := [x] + out, if w - 1 < |buf| then buf[w - 1 := x] else buf;
    forall i | 0 <= i < |out'|
      ensures 0 <= w - 1 + i < |buf'| ==> buf'[w - 1 + i] == out'[i]
    {
      if i > 0 {
        assert out'[i] == out[i - 1];
        assert 0 <= w + (i - 1) < |buf| ==> buf[w + (i - 1)] == out[i - 1];
      }
    }
  }

  lemma StoredSnoc(out: seq<digit>, buf: seq<digit>, before: bool, trunc: bool, x: digit)
    requires Stored(out, 0, buf, before, trunc)
    ensures Stored(out + [x], 0, if |out| < |buf| then buf[|out| := x] else buf, before,
                   trunc || (|out| >= |buf| && x != 0))
  {
    hide Overflows;
    OverflowsSnoc(out, |buf|, x);
    var out', buf' := out + [x], if |out| < |buf| then buf[|out| := x] else buf;
    forall i | 0 <= i < |out'|
      ensures 0 <= 0 + i < |buf'| ==> buf'[0 + i] == out'[i]
    {
      if i < |out| {
        assert out'[i] == out[i];
        assert 0 <= 0 + i < |buf| ==> buf[0 + i] == out[i];
      }
    }
  }

  /** The stored prefix is what the fraction keeps. */
  lemma StoredPrefix(out: seq<digit>, buf: seq<digit>, before: bool, trunc: bool, n: nat)
    requires Stored(out, 0, buf, before, trunc) && n == (if |out| < |buf| then |out| else |buf|)
    ensures buf[..n] == out[..n]
    ensures trunc <==> before || !AllZero(out[n..])
  {
    forall i | 0 <= i < n
      ensures buf[i] == out[i]
    {
      assert 0 <= 0 + i < |buf|;
    }
    if Overflows(out, 0, |buf|) {
      var i :| 0 <= i < |out| && 0 + i >= |buf| && out[i] != 0;
      assert out[n..][i - n] == out[i];
    }
    if !AllZero(out[n..]) {
      var i :| 0 <= i < |out[n..]| && out[n..][i] != 0;
      assert out[n + i] != 0 && 0 + (n + i) >= |buf|;
    }
  }

  /** Digits that all have room change no flag. */
  lemma StoredFits(out: seq<digit>, buf: seq<digit>, trunc: bool)
    requires Stored(out, 0, buf, false, false) && |out| <= |buf|
    ensures Stored(out, 0, buf, trunc, trunc)
  {
    assert !Overflows(out, 0, |buf|);
  }

  /** What a shift leaves of the exact result w. */
  ghost predicate Kept(w: real, v: real, dp: int, before: bool, trunc: bool) {
    Cut(w, v, MAX_DNUM - dp) && w < Ten(dp) && (trunc <==> before || v < w)
  }

  /** The first 800 digits of a result are the result cut to 800 places. */
  lemma CutDigits(out: seq<digit>, n: nat, dp: int, before: bool, trunc: bool)
    requires n == (if |out| < MAX_DNUM then |out| else MAX_DNUM)
    requires trunc <==> before || !AllZero(out[n..])
    ensures Kept(Times(Frac(out), Ten(dp)), Times(Frac(out[..n]), Ten(dp)), dp, before, trunc)
  {
    hide Times, Ten, Frac, AllZero, NatOf;
    var w, v, a := Times(Frac(out), Ten(dp)), Times(Frac(out[..n]), Ten(dp)), MAX_DNUM - dp;
    FracPrefix(out, n);
    FracRange(out);
    TimesOrder(Frac(out[..n]), Frac(out), Ten(dp));
    TimesOrder(Frac(out), 1.0, Ten(dp));
    TimesUnit(Ten(dp));
    TenAdd(dp, a, MAX_DNUM);
    TimesAssoc(Frac(out), Ten(dp), Ten(a));
    TimesAssoc(Frac(out[..n]), Ten(dp), Ten(a));
    if n == MAX_DNUM {
      FracFloor(out, n);
    } else {
      assert out[..n] == out;
    }
  }

  /** Value bookkeeping of a left shift: no more than a tenth of the result is lost. */
  lemma ShiftedValue(digits: seq<digit>, out: seq<digit>, n: nat, k: nat, delta: int, dp: int)
    requires Times(Frac(out), Ten(delta)) == Times(Frac(digits), Two(k))
    requires 0 < n <= |out| && (n == |out| || n >= 2) && out[0] != 0
    ensures var was := Times(Times(Frac(digits), Ten(dp)), Two(k));
            was == Times(Frac(out), Ten(dp + delta)) <= 1.1 * Times(Frac(out[..n]), Ten(dp + delta))
  {
    FracPrefix(out, n);
    FracRange(out[..n]);
    assert 0.1 <= Frac(out[..n]);
    hide Times, Two, Ten, Frac, AllZero;
    TimesAssoc(Frac(digits), Ten(dp), Two(k));
    TimesComm(Ten(dp), Two(k));
    TimesAssoc(Frac(digits), Two(k), Ten(dp));
    TimesAssoc(Frac(out), Ten(delta), Ten(dp));
    TenAdd(delta, dp, dp + delta);
    if n == |out| {
      assert out[..n] == out;
      TimesPositive(Frac(out), Ten(dp + delta));
    } else {
      TenMono(0 - n, -2);
      TenHundredth();
      TimesOrder(Frac(out), 1.1 * Frac(out[..n]), Ten(dp + delta));
      TimesScale(1.1, Frac(out[..n]), Ten(dp + delta));
    }
  }

  lemma TenHundredth()
    ensures Ten(-2) == 0.01
  {
    assert Ten(-1) == 0.1;
  }

  lemma RestEnd(s: seq<digit>, r: nat)
    requires r >= |s|
    ensures Rest(s, r) == 0.0
  {
  }

  /** u is v * 2^k, or less when digits were dropped, as trunc then tells. */
  ghost predicate Shifted(v: real, u: real, k: int, before: bool, trunc: bool) {
    u <= Times(v, Two(k)) && (trunc <==> before || u < Times(v, Two(k)))
  }

  /** No multiple of 2^-q up to a depth lies between u and v * 2^k. */
  ghost predicate Cells(v: real, u: real, k: int, depth: int) {
    forall q :: q <= depth ==> SameCell(Times(v, Two(k)), u, q)
  }

  lemma ShiftedStep(v: real, u: real, w: real, j: int, k: int, before: bool, mid: bool, after: bool, dp: int)
    requires Shifted(v, u, j, before, mid) && Kept(Times(u, Two(k)), w, dp, mid, after)
    ensures Shifted(v, w, j + k, before, after)
  {
    hide Times, Two, Ten;
    TimesOrder(u, Times(v, Two(j)), Two(k));
    TimesAssoc(v, Two(j), Two(k));
    TwoAdd(j, k, j + k);
  }

  lemma CellStep(v: real, u: real, w: real, j: int, k: int, before: bool, after: bool, dp: int, depth: int, q: int)
    requires Cells(v, u, j, depth) && Kept(Times(u, Two(k)), w, dp, before, after) && dp <= MAX_DNUM
    requires q + k <= depth && q <= MAX_DNUM - dp
    ensures SameCell(Times(v, Two(j + k)), w, q)
  {
    hide Times, Two, Ten;
    CutCell(Times(u, Two(k)), w, MAX_DNUM - dp, q);
    assert SameCell(Times(v, Two(j)), u, q + k);
    TwoAdd(k, q, q + k);
    TwoAdd(j, q + k, j + k + q);
    TwoAdd(j + k, q, j + k + q);
    TimesAssoc(v, Two(j), Two(q + k));
    TimesAssoc(v, Two(j + k), Two(q));
    TimesAssoc(u, Two(k), Two(q));
  }

  lemma CellsStep(v: real, u: real, w: real, j: int, k: int, before: bool, after: bool, dp: int, depth: int, next: int)
    requires Cells(v, u, j, depth) && Kept(Times(u, Two(k)), w, dp, before, after) && dp <= MAX_DNUM
    requires next + k <= depth && next <= MAX_DNUM - dp
    ensures Cells(v, w, j + k, next)
  {
    hide Times, Two, Ten, Kept, SameCell;
    var z := Times(v, Two(j + k));
    forall q | q <= next
      ensures SameCell(z, w, q)
    {
      CellStep(v, u, w, j, k, before, after, dp, depth, q);
    }
  }

  lemma NothingShifted(v: real, trunc: bool, depth: int)
    ensures Shifted(v, v, 0, trunc, trunc) && Cells(v, v, 0, depth)
  {
    TwoBase();
    TimesUnit(v);
  }

  /** Dividing by 2^k is multiplying by 2^-k. */
  lemma Undo(u: real, w: real, k: nat)
    requires Times(w, Two(k)) == u
    ensures w == Times(u, Two(0 - k))
  {
    hide Times, Two;
    TimesAssoc(w, Two(k), Two(0 - k));
    TwoAdd(k, 0 - k, 0);
    TwoBase();
    TimesUnit(w);
  }

  lemma ZeroShift(nd: nat, s: seq<digit>, dp: int, k: int)
    requires |s| == nd && (nd == 0 || k == 0)
    ensures var v := Times(Frac(s), Ten(dp)); Times(v, Two(k)) == v && 0.0 <= v < Ten(dp)
  {
    FracRange(s);
    assert s == [] ==> Frac(s) == 0.0;
    hide Times, Two, Ten, Frac;
    TimesUnit(Ten(dp));
    TimesUnit(Two(k));
    TwoBase();
    TimesUnit(Times(Frac(s), Ten(dp)));
    TimesOrder(0.0, Frac(s), Ten(dp));
    TimesOrder(Frac(s), 1.0, Ten(dp));
  }

  class Decimal {
    const d: array<digit>
    var nd: nat
    var dp: int
    var neg: bool
    var trunc: bool

    constructor ()
      ensures Valid() && fresh(d) && nd == 0
    {
      d := new digit[MAX_DNUM];
      nd, dp, neg, trunc := 0, 0, false, false;
    }

    predicate Valid()
      reads this
    {
      d.Length == MAX_DNUM && nd <= MAX_DNUM
    }

    /** 0.d1d2d3... * 10^dp, sign apart. */
    function Value(): (r: real)
      reads this, d
      requires Valid()
    {
      Times(Frac(d[..nd]), Ten(dp))
    }

    /** No leading zero; in particular a number with digits is not zero. */
    predicate Leading()
      reads this, d
      requires Valid()
    {
      nd > 0 ==> d[0] != 0
    }

    /** No trailing zero, and zero has exponent zero. */
    predicate Trimmed()
      reads this, d
      requires Valid()
    {
      if nd == 0 then dp == 0 else d[nd - 1] != 0
    }

    method Trim()
      requires Valid() && Leading()
      modifies this
      ensures Valid() && Leading() && Trimmed()
      ensures Value() == old(Value()) && neg == old(neg) && trunc == old(trunc)
      ensures d[..] == old(d[..]) && (old(nd) > 0 ==> nd > 0) && (nd > 0 ==> dp == old(dp))
    {
      assert Frac([]) == 0.0;
      hide Times, Ten, Frac;
      while nd > 0 && d[nd - 1] == 0
        invariant Valid() && Leading()
        invariant Frac(d[..nd]) == Frac(d[..old(nd)]) && (old(nd) > 0 ==> nd > 0)
        invariant dp == old(dp) && neg == old(neg) && trunc == old(trunc)
        invariant d[..] == old(d[..])
      {
        FracPrefix(d[..nd], nd - 1);
        assert d[..nd][..nd - 1] == d[..nd - 1];
        nd := nd - 1;
      }
      assert d[..old(nd)] == old(d[..nd]);
      if nd == 0 {
        assert d[..nd] == [];
        TimesUnit(Ten(dp));
        TimesUnit(Ten(0));
        dp := 0;
      }
    }

    /** d[w] = digit, or the truncation flag when w is past the end. */
    method Put(w: nat, x: digit)
      requires Valid()
      modifies this`trunc, d
      ensures d[..] == if w < MAX_DNUM then old(d[..])[w := x] else old(d[..])
      ensures trunc == (old(trunc) || (w >= MAX_DNUM && x != 0))
    {
      if w < MAX_DNUM {
        d[w] := x;
      } else if x != 0 {
        trunc := true;
      }
    }

    /** Put, for a left shift: everything put down so far sits from w upwards. */
    method PutFront(w: nat, x: digit, ghost out: seq<digit>, ghost before: bool)
      requires Valid() && Stored(out, w + 1, d[..], before, trunc)
      modifies this`trunc, d
      ensures Stored([x] + out, w, d[..], before, trunc)
      ensures forall i | 0 <= i < w && i < MAX_DNUM :: d[i] == old(d[i])
    {
      hide Stored;
      StoredConsAll(out, w + 1, d[..], before, trunc, x);
      Put(w, x);
    }

    /** Compare the leading prefix: is 0.d less than 0.s?  (s ends where the C++ string has
        its terminator.) */
    method PrefixIsLess(s: seq<digit>) returns (less: bool)
      requires Valid() && (s == [] || s[|s| - 1] != 0)
      ensures less <==> Frac(d[..nd]) < Frac(s)
    {
      hide Frac;
      var i := 0;
      while i < nd
        invariant i <= nd && i <= |s| && d[..i] == s[..i]
      {
        assert d[..nd][..i] == d[..i];
        if i == |s| {
          assert d[..nd][..i] == s;
          PrefixLess(d[..nd], s);
          return false;
        }
        if d[i] != s[i] {
          if d[i] < s[i] {
            FracLess(d[..nd], s, i);
          } else {
            FracLess(s, d[..nd], i);
          }
          return d[i] < s[i];
        }
        i := i + 1;
      }
      PrefixLess(d[..nd], s);
      return i != |s|;
    }

    /** First loop of the left shift: pick up a digit, put down a digit.  out is everything
        that was put down. */
    method ShiftDigits(k: nat, delta: nat) returns (n: u64, ghost out: seq<digit>)
      requires Valid() && nd > 0 && 0 < k <= MAX_SHIFT
      modifies this`trunc, d
      ensures |out| == nd && Stored(out, delta, d[..], old(trunc), trunc)
      ensures n as real + Frac(out) == old(Times(Frac(d[..nd]), Two(k)))
    {
      assert Frac([]) == 0.0;
      hide Times, Two, Ten, Frac, Pow, Stored, Shl;
      ghost var digits := d[..nd];
      ghost var p := Pow(2, k);
      var r := nd;
      var w := nd + delta;
      n := 0;
      out := [];
      TimesUnit(Two(k));
      StoredNil(w, d[..], trunc);
      assert digits[r..] == [];
      while r > 0
        invariant r <= nd && w == r + delta && |out| == nd - r && n < p
        invariant Times(Frac(digits[r..]), Two(k)) == n as real + Frac(out)
        invariant forall i | 0 <= i < r :: d[i] == digits[i]
        invariant Stored(out, w, d[..], old(trunc), trunc)
      {
        r := r - 1;
        ghost var n0: nat := n;
        ghost var sum;
        var quo, rem;
        quo, rem, sum := AddShifted(d[r], k, n);
        PushDigitAt(digits, r, k, n0, out, sum);
        w := w - 1;
        PutFront(w, rem, out, old(trunc));
        out := [rem] + out;
        n := quo;
      }
      assert digits[0..] == digits;
    }

    /** The accumulator with a digit added, and its own last digit split off. */
    method AddShifted(x: digit, k: nat, n: u64) returns (quo: u64, rem: digit, ghost sum: nat)
      requires 0 < k <= MAX_SHIFT && n < Pow(2, k)
      ensures sum == n + Shl(x, k) && quo == sum / 10 && rem == sum % 10 && quo < Pow(2, k)
    {
      hide Pow, Shl;
      ShlDigit(x, k);
      var shifted: u64 := n + Shl(x, k);
      quo := shifted / 10;
      rem := shifted - 10 * quo;
      sum := shifted;
    }

    /** Second loop: put down extra digits.  The prediction makes w reach exactly zero. */
    method ExtraDigits(delta: nat, first: u64, ghost v: real, ghost low: seq<digit>, ghost before: bool)
      returns (ghost out: seq<digit>)
      requires Valid() && |low| == nd && Stored(low, delta, d[..], before, trunc)
      requires v == first as real + Frac(low) && Ten(delta - 1) <= v < Ten(delta)
      modifies this`trunc, d
      ensures |out| == nd + delta && Stored(out, 0, d[..], before, trunc)
      ensures Times(Frac(out), Ten(delta)) == v
    {
      hide Times, Two, Ten, Frac, Stored;
      var n := first;
      var w := delta;
      out := low;
      TenBase();
      TimesUnit(v);
      while n > 0
        invariant w == nd + delta - |out| >= 0 && |out| >= nd
        invariant v == Times(n as real + Frac(out), Ten(|out| - nd))
        invariant Stored(out, w, d[..], before, trunc)
        decreases n
      {
        OwedDigits(v, n, out, |out| - nd, delta);
        var quo := n / 10;
        var rem := n - 10 * quo;
        PushQuotient(v, n, out, |out| - nd, quo, rem);
        w := w - 1;
        PutFront(w, rem, out, before);
        out := [rem] + out;
        n := quo;
      }
      OwedDigits(v, n, out, |out| - nd, delta);
    }

    /** Multiply by 2^k in place, from the last digit to the first.  The digit count is
        predicted before the first digit is written; the loops end with the write index at
        zero.  The result is cut to 800 digits, and trunc is newly set exactly when that loses
        something. */
    method LeftShift(k: nat)
      requires Valid() && Leading() && nd > 0 && 0 < k <= MAX_SHIFT
      modifies this, d
      ensures Valid() && Leading() && Trimmed() && nd > 0
      ensures neg == old(neg) && old(dp) <= dp <= old(dp) + k
      ensures Kept(Times(old(Value()), Two(k)), Value(), dp, old(trunc), trunc)
      ensures Times(old(Value()), Two(k)) <= 1.1 * Value()
    {
      hide Times, Two, Ten, Frac, Delta, Cutoff, Pow, Stored, Kept, AllZero;
      ghost var digits, before := d[..nd], trunc;
      var delta := Delta(k);
      DeltaPositive(k);
      DeltaPlusCutoff(k);
      CutoffEnds(k);
      var less := PrefixIsLess(Cutoff(k));
      if less {
        delta := delta - 1;
      }
      ShiftedRange(digits, k, delta);
      ghost var v := Times(Frac(digits), Two(k));
      var n;
      ghost var low;
      n, low := ShiftDigits(k, delta);
      ghost var out := ExtraDigits(delta, n, v, low, before);
      LeadingDigit(v, out, delta);
      ghost var n0 := nd;
      nd := nd + delta;
      if nd >= MAX_DNUM {
        nd := MAX_DNUM;
      }
      StoredPrefix(out, d[..], before, trunc, nd);
      assert d[..nd] == d[..][..nd] == out[..nd];
      ShiftedValue(digits, out, nd, k, delta, dp);
      dp := dp + delta;
      CutDigits(out, nd, dp, before, trunc);
      Trim();
    }

    /** Reads digits until n has a bit above the shift; digits past the end are zeros. */
    method FirstDigits(k: nat) returns (r: nat, n: u64)
      requires Valid() && Leading() && nd > 0 && 0 < k <= MAX_SHIFT
      ensures 0 < r && Pow(2, k) <= n < 10 * Pow(2, k)
      ensures Times(Frac(d[..nd]), Ten(r)) == n as real + Rest(d[..nd], r)
    {
      assert Pow(2, k) > 1;
      hide Times, Ten, Frac, Rest, Pow, Shr, Low, Shl;
      ghost var s := d[..nd];
      r, n := 0, 0;
      RestStart(s);
      ShlDigit(1, k);
      while Shr(n, k) == 0
        invariant r <= nd && n < 10 * Pow(2, k)
        invariant Times(Frac(s), Ten(r)) == n as real + Rest(s, r)
        invariant r > 0 ==> n > 0
        decreases nd - r
      {
        SplitBits(n, k);
        if r >= nd {
          while Shr(n, k) == 0
            invariant r >= nd && 0 < n < 10 * Pow(2, k)
            invariant Times(Frac(s), Ten(r)) == n as real + Rest(s, r)
            decreases Pow(2, k) - n
          {
            SplitBits(n, k);
            ReadDigit(s, r, n);
            n := n * 10;
            r := r + 1;
          }
          break;
        }
        ReadDigit(s, r, n);
        n := n * 10 + d[r];
        r := r + 1;
      }
      SplitBits(n, k);
    }

    /** Pick up a digit, put down a digit.  The write index stays below the read index. */
    method DivideDigits(k: nat, first: nat, start: u64) returns (n: u64, w: nat, ghost out: seq<digit>)
      requires Valid() && 0 < k <= MAX_SHIFT && 0 < first && Pow(2, k) <= start < 10 * Pow(2, k)
      requires Times(Frac(d[..nd]), Ten(first)) == start as real + Rest(d[..nd], first)
      modifies d
      ensures w == |out| <= nd && Stored(out, 0, d[..], false, false) && n < 10 * Pow(2, k)
      ensures Division(old(Times(Frac(d[..nd]), Ten(first))), out, n, 0.0, k)
      ensures if out == [] then Shr(n, k) > 0 else out[0] != 0
    {
      hide Times, Two, Ten, Frac, Rest, Pow, Shr, Low, Shl, Division, Stored;
      ghost var s := d[..nd];
      ghost var a := Times(Frac(s), Ten(first));
      w := 0;
      n, out := start, [];
      var r := first;
      DivisionStart(a, n, Rest(s, r), k);
      StoredNil(0, d[..], false);
      SplitBits(n, k);
      ShlDigit(1, k);
      while r < nd
        invariant w == |out| && r == first + w && w <= nd && n < 10 * Pow(2, k)
        invariant Division(a, out, n, Rest(s, r), k)
        invariant forall i | r <= i < nd :: d[i] == s[i]
        invariant Stored(out, 0, d[..], false, false)
        invariant if out == [] then Shr(n, k) > 0 else out[0] != 0
      {
        SplitBits(n, k);
        var dig := Shr(n, k);
        DivisionStep(a, s, r, out, n, k, dig);
        StoredSnoc(out, d[..], false, false, dig);
        n := Low(n, k);
        d[w] := dig;
        w := w + 1;
        out := out + [dig];
        n := n * 10 + d[r];
        r := r + 1;
      }
      assert Rest(s, r) == 0.0 by { RestEnd(s, r); }
    }

    /** Put down extra digits until the remainder is used up. */
    method ExtraQuotients(k: nat, start: u64, used: nat, ghost a: real, ghost low: seq<digit>)
      returns (w: nat, ghost out: seq<digit>)
      requires Valid() && 0 < k <= MAX_SHIFT && start < 10 * Pow(2, k) && used == |low| <= MAX_DNUM
      requires Division(a, low, start, 0.0, k) && Stored(low, 0, d[..], trunc, trunc)
      requires if low == [] then Shr(start, k) > 0 else low[0] != 0
      modifies this`trunc, d
      ensures Division(a, out, 0, 0.0, k) && Stored(out, 0, d[..], old(trunc), trunc)
      ensures out != [] && out[0] != 0 && w == (if |out| < MAX_DNUM then |out| else MAX_DNUM)
    {
      hide Times, Two, Ten, Frac, Rest, Pow, Shr, Low, Shl, Division, Stored, Multiple;
      ghost var j := 0;
      var n: u64 := start;
      w, out := used, low;
      MultipleStart(n);
      ShlDigit(1, k);
      while n > 0
        invariant w == (if |out| < MAX_DNUM then |out| else MAX_DNUM) && n < 10 * Pow(2, k)
        invariant Division(a, out, n, 0.0, k) && Stored(out, 0, d[..], old(trunc), trunc)
        invariant if out == [] then Shr(n, k) > 0 else out[0] != 0
        invariant j <= k + 1 && Multiple(n, j) && (j == k + 1 ==> n == 0)
        decreases k + 1 - j
      {
        SplitBits(n, k);
        var dig := Shr(n, k);
        DivisionStep(a, [], 0, out, n, k, dig) by { RestEnd([], 0); }
        RestEnd([], 1);
        MultipleStep(n, j, k);
        StoredSnoc(out, d[..], old(trunc), trunc, dig);
        n := Low(n, k);
        Put(w, dig);
        if w < MAX_DNUM {
          w := w + 1;
        }
        out := out + [dig];
        n := n * 10;
        j := j + 1;
      }
      SplitBits(n, k);
    }

    /** Divide by 2^k in place, cut to 800 digits; trunc is newly set exactly when that loses something. */
    method RightShift(k: nat)
      requires Valid() && Leading() && nd > 0 && 0 < k <= MAX_SHIFT
      modifies this, d
      ensures Valid() && Leading() && Trimmed() && nd > 0
      ensures neg == old(neg) && dp <= old(dp)
      ensures Kept(Times(old(Value()), Two(0 - k)), Value(), dp, old(trunc), trunc)
    {
      hide Times, Two, Ten, Frac, Rest, Pow, Shr, Low, Shl, Division, Stored, Kept, AllZero;
      ghost var s, before := d[..nd], trunc;
      var r, n := FirstDigits(k);
      ghost var a := Times(Frac(s), Ten(r));
      ghost var low;
      var w;
      n, w, low := DivideDigits(k, r, n);
      dp := dp - (r - 1);
      StoredFits(low, d[..], trunc);
      ghost var out;
      w, out := ExtraQuotients(k, n, w, a, low);
      DivisionEnd(s, out, k, r, old(dp));
      Undo(old(Value()), Times(Frac(out), Ten(dp)), k);
      StoredPrefix(out, d[..], before, trunc, w);
      nd := w;
      assert d[..nd] == d[..][..nd] == out[..nd];
      CutDigits(out, nd, dp, before, trunc);
      Trim();
    }

    /** Multiply by 2^k for any k, in steps of at most 60 bits.  Whatever was cut off on the way, no
        multiple of a power of two that still fits the 800 digits lies between the result and the
        exact product. */
    method DecimalShift(k: int)
      requires Valid() && Leading()
      modifies this, d
      ensures Valid() && Leading() && neg == old(neg)
      ensures nd > 0 <==> old(nd) > 0
      ensures old(nd) > 0 && k != 0 ==> Trimmed()
      ensures Shifted(old(Value()), Value(), k, old(trunc), trunc)
      ensures var up := if k > 0 then k else 0;
              old(dp) + up <= MAX_DNUM ==> Cells(old(Value()), Value(), k, MAX_DNUM - old(dp) - up)
      ensures if k >= 0 then old(dp) <= dp <= old(dp) + k else dp <= old(dp)
      ensures -MAX_SHIFT <= k <= MAX_SHIFT ==> Times(old(Value()), Two(k)) < Ten(dp)
      ensures 0 <= k <= MAX_SHIFT ==> Times(old(Value()), Two(k)) <= 1.1 * Value()
    {
      hide Times, Two, Ten, Frac, Kept, Shifted, Cells;
      ghost var v, t := Value(), trunc;
      NothingShifted(v, t, MAX_DNUM - dp);
      if nd == 0 || k == 0 {
        ZeroShift(nd, d[..nd], dp, k);
        StillShifted(v, k, t, MAX_DNUM - dp);
        return;
      }
      if k > 0 {
        DecimalShiftUp(k);
      } else {
        DecimalShiftDown(k);
      }
    }

    method DecimalShiftUp(k: int)
      requires Valid() && Leading() && nd > 0 && k > 0
      modifies this, d
      ensures Valid() && Leading() && Trimmed() && nd > 0 && neg == old(neg)
      ensures Shifted(old(Value()), Value(), k, old(trunc), trunc)
      ensures old(dp) + k <= MAX_DNUM ==> Cells(old(Value()), Value(), k, MAX_DNUM - old(dp) - k)
      ensures old(dp) <= dp <= old(dp) + k
      ensures k <= MAX_SHIFT ==>
                Times(old(Value()), Two(k)) < Ten(dp) && Times(old(Value()), Two(k)) <= 1.1 * Value()
    {
      hide Times, Two, Ten, Frac, Kept, Shifted, Cells;
      ghost var v, t, p := Value(), trunc, dp;
      NothingShifted(v, t, MAX_DNUM - dp);
      var left := k;
      while left > MAX_SHIFT
        invariant 0 < left <= k && Valid() && Leading() && nd > 0 && neg == old(neg) && (left == k || k > MAX_SHIFT)
        invariant Shifted(v, Value(), k - left, t, trunc) && p <= dp <= p + (k - left)
        invariant p + k <= MAX_DNUM ==> Cells(v, Value(), k - left, MAX_DNUM - p - (k - left))
        invariant left == k ==> Value() == v
      {
        StepUp(MAX_SHIFT, v, k - left, t, MAX_DNUM - p - (k - left));
        left := left - MAX_SHIFT;
      }
      StepUp(left, v, k - left, t, MAX_DNUM - p - (k - left));
    }

    /** One step, added to j bits shifted before. */
    method StepUp(k: nat, ghost v: real, ghost j: int, ghost before: bool, ghost depth: int)
      requires Valid() && Leading() && nd > 0 && 0 < k <= MAX_SHIFT && Shifted(v, Value(), j, before, trunc)
      modifies this, d
      ensures Valid() && Leading() && Trimmed() && nd > 0 && neg == old(neg) && old(dp) <= dp <= old(dp) + k
      ensures Shifted(v, Value(), j + k, before, trunc)
      ensures old(Cells(v, Value(), j, depth)) && dp <= MAX_DNUM && depth <= MAX_DNUM - old(dp) ==>
                Cells(v, Value(), j + k, depth - k)
      ensures Times(old(Value()), Two(k)) < Ten(dp) && Times(old(Value()), Two(k)) <= 1.1 * Value()
    {
      hide Times, Two, Ten, Frac, Shifted, Cells;
      ghost var u, s := Value(), trunc;
      LeftShift(k);
      ShiftedStep(v, u, Value(), j, k, before, s, trunc, dp);
      if Cells(v, u, j, depth) && dp <= MAX_DNUM && depth <= MAX_DNUM - old(dp) {
        CellsStep(v, u, Value(), j, k, s, trunc, dp, depth, depth - k);
      }
    }

    method DecimalShiftDown(k: int)
      requires Valid() && Leading() && nd > 0 && k < 0
      modifies this, d
      ensures Valid() && Leading() && Trimmed() && nd > 0 && neg == old(neg)
      ensures Shifted(old(Value()), Value(), k, old(trunc), trunc)
      ensures old(dp) <= MAX_DNUM ==> Cells(old(Value()), Value(), k, MAX_DNUM - old(dp))
      ensures dp <= old(dp)
      ensures -MAX_SHIFT <= k ==> Times(old(Value()), Two(k)) < Ten(dp)
    {
      hide Times, Two, Ten, Frac, Kept, Shifted, Cells;
      ghost var v, t, p := Value(), trunc, dp;
      NothingShifted(v, t, MAX_DNUM - dp);
      var left := k;
      while left < -MAX_SHIFT
        invariant k <= left < 0 && Valid() && Leading() && nd > 0 && neg == old(neg) && (left == k || k < -MAX_SHIFT)
        invariant Shifted(v, Value(), k - left, t, trunc) && dp <= p
        invariant p <= MAX_DNUM ==> Cells(v, Value(), k - left, MAX_DNUM - p)
        invariant left == k ==> Value() == v
      {
        StepDown(MAX_SHIFT, v, k - left, t, MAX_DNUM - p);
        left := left + MAX_SHIFT;
      }
      StepDown(-left, v, k - left, t, MAX_DNUM - p);
    }

    method StepDown(k: nat, ghost v: real, ghost j: int, ghost before: bool, ghost depth: int)
      requires Valid() && Leading() && nd > 0 && 0 < k <= MAX_SHIFT && Shifted(v, Value(), j, before, trunc)
      modifies this, d
      ensures Valid() && Leading() && Trimmed() && nd > 0 && neg == old(neg) && dp <= old(dp)
      ensures Shifted(v, Value(), j - k, before, trunc)
      ensures old(Cells(v, Value(), j, depth)) && old(dp) <= MAX_DNUM && depth <= MAX_DNUM - old(dp) ==>
                Cells(v, Value(), j - k, depth)
      ensures Times(old(Value()), Two(0 - k)) < Ten(dp)
    {
      hide Times, Two, Ten, Frac, Shifted, Cells;
      ghost var u, s := Value(), trunc;
      RightShift(k);
      ShiftedStep(v, u, Value(), j, 0 - k, before, s, trunc, dp);
      if Cells(v, u, j, depth) && old(dp) <= MAX_DNUM && depth <= MAX_DNUM - old(dp) {
        CellsStep(v, u, Value(), j, 0 - k, s, trunc, dp, depth, depth);
      }
    }
  }

  lemma StillShifted(v: real, k: int, trunc: bool, depth: int)
    requires Times(v, Two(k)) == v
    ensures Shifted(v, v, k, trunc, trunc) && forall e :: e <= depth ==> Cells(v, v, k, e)
  {}
}
