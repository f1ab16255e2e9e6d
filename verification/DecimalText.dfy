/** Reading a literal's digits into the slow path's decimal. */
module DecimalText {
  import opened Options
  import opened Powers
  import opened Digits
  import opened Json
  import opened Lexer
  import opened Sentinel
  import opened NumberScan
  import opened NumberValue
  import opened Decimals
  import opened Truncation
  import opened DecimalToDouble

  /** The decimal holds the digits p from the first nonzero one on, up to 800 of them. */
  ghost predicate Held(buf: seq<digit>, nd: nat, trunc: bool, p: seq<digit>, z: nat) {
    && z <= |p| && AllZero(p[..z]) && (z < |p| ==> p[z] != 0)
    && |buf| == MAX_DNUM && nd == (if |p| - z < MAX_DNUM then |p| - z else MAX_DNUM)
    && buf[..nd] == p[z..z + nd]
    && (trunc <==> !AllZero(p[z + nd..]))
  }

  lemma HeldNothing(buf: seq<digit>)
    requires |buf| == MAX_DNUM
    ensures Held(buf, 0, false, [], 0)
  {}

  /** One more leading zero. */
  lemma HeldZero(buf: seq<digit>, trunc: bool, p: seq<digit>, z: nat)
    requires Held(buf, 0, trunc, p, z)
    ensures z == |p| && Held(buf, 0, trunc, p + [0], z + 1)
  {
    assert (p + [0])[..z + 1] == p + [0];
    assert p[..z] == p;
    assert p[z..] == [] && (p + [0])[z + 1..] == [];
  }

  lemma AllZeroSnoc(s: seq<digit>, x: digit)
    ensures AllZero(s + [x]) <==> AllZero(s) && x == 0
  {
    if AllZero(s + [x]) {
      assert (s + [x])[|s|] == x;
      forall i | 0 <= i < |s|
        ensures s[i] == 0
      {
        assert (s + [x])[i] == s[i];
      }
    }
  }

  /** One more digit, stored or, when there is no room, only checked. */
  lemma HeldDigit(buf: seq<digit>, nd: nat, trunc: bool, p: seq<digit>, z: nat, x: digit, buf': seq<digit>, nd': nat,
      trunc': bool)
    requires Held(buf, nd, trunc, p, z) && (nd > 0 || x != 0) && nd <= MAX_DNUM
    requires if nd < MAX_DNUM then buf' == buf[nd := x] && nd' == nd + 1 && trunc' == trunc
             else buf' == buf && nd' == nd && trunc' == (trunc || x != 0)
    ensures Held(buf', nd', trunc', p + [x], z)
  {
    var q := p + [x];
    assert q[..z] == p[..z];
    assert buf'[..nd] == buf[..nd];
    if nd < MAX_DNUM {
      assert z + nd == |p|;
      assert q[z + nd'..] == [];
      assert buf'[..nd'] == buf'[..nd] + [x];
      assert q[z..z + nd'] == p[z..z + nd] + [x];
    } else {
      assert q[z..z + nd] == p[z..z + nd];
      assert q[z + nd..] == p[z + nd..] + [x];
      AllZeroSnoc(p[z + nd..], x);
    }
  }

  lemma HeldLeading(buf: seq<digit>, nd: nat, trunc: bool, p: seq<digit>, z: nat)
    requires Held(buf, nd, trunc, p, z) && nd > 0
    ensures buf[0] != 0
  {
    assert buf[..nd][0] == p[z..z + nd][0];
  }

  /** The held digits are the digits of the literal, cut to 800 places. */
  lemma HeldValue(buf: seq<digit>, nd: nat, trunc: bool, p: seq<digit>, z: nat, k: int)
    requires Held(buf, nd, trunc, p, z) && nd <= |buf|
    ensures var v, x := Times(Frac(buf[..nd]), Ten(k - z)), Times(Frac(p), Ten(k));
            Kept(x, v, k - z, false, trunc)
  {
    hide Frac, Ten, Times, AllZero, Kept;
    var t := p[z..];
    assert p == p[..z] + t;
    FracConcat(p[..z], t);
    FracZero(p[..z]);
    assert t[..nd] == p[z..z + nd] && t[nd..] == p[z + nd..];
    TimesComm(Ten(0 - z), Frac(t));
    TimesAssoc(Frac(t), Ten(0 - z), Ten(k));
    TenAdd(0 - z, k, k - z);
    assert Ten(-|p[..z]|) == Ten(0 - z);
    CutDigits(t, nd, k - z, false, trunc);
  }

  // ---- the shape of a literal ----

  /** Where the parts of the literal at a (behind the sign) are: integer digits to w, fraction to f. */
  ghost predicate Shaped(s: Bytes, num: Number, a: nat, w: nat, f: nat, end: nat) {
    && a <= w <= f <= end <= |s| && f < |s|
    && (forall k :: a <= k < w ==> IsDigit(s[k])) && DigitsIn(s, a, w) == num.whole
    && (|num.whole| > 1 ==> num.whole[0] != 0)
    && !IsDigit(s[f]) && s[f] != DOT
    && (if num.frac == [] then f == w
        else w < f && s[w] == DOT && (forall k :: w + 1 <= k < f ==> IsDigit(s[k])) &&
             DigitsIn(s, w + 1, f) == num.frac)
    && ScanExponent(s, f) == Some(ExponentRun(num.exp, end))
  }

  /** A literal of the text that is more than a lone zero: the condition of every call of the slow path. */
  ghost predicate Readable(s: Bytes, n: nat, start: nat, num: Number, end: nat) {
    && Padded(s, n) && start < n && ScanNumber(s, start) == Some(NumberRun(num, end))
    && (IsInteger(num) ==> num.whole != [] && num.whole[0] != 0)
  }

  /** No second point follows the literal; the slow path would read on there. */
  predicate Ended(s: Bytes, end: nat) { Peek(s, end) != DOT }

  lemma NumberParts(s: Bytes, start: nat, num: Number, end: nat) returns (w: nat, f: nat)
    requires ScanNumber(s, start) == Some(NumberRun(num, end))
    ensures num.neg == (Peek(s, start) == MINUS)
    ensures ScanWhole(s, if num.neg then start + 1 else start) == Some(Run(num.whole, w))
    ensures w <= |s| && ScanFraction(s, w) == Some(Run(num.frac, f))
    ensures f <= |s| && ScanExponent(s, f) == Some(ExponentRun(num.exp, end))
  {
    hide ScanWhole, ScanFraction, ScanExponent;
    w := ScanWhole(s, if num.neg then start + 1 else start).value.end;
    f := ScanFraction(s, w).value.end;
  }

  lemma PartsShape(s: Bytes, n: nat, a: nat, num: Number, w: nat, f: nat, end: nat)
    requires Padded(s, n) && end <= n && w <= |s| && f <= |s|
    requires ScanWhole(s, a) == Some(Run(num.whole, w)) && ScanFraction(s, w) == Some(Run(num.frac, f))
    requires ScanExponent(s, f) == Some(ExponentRun(num.exp, end))
    requires Ended(s, end)
    requires IsInteger(num) ==> num.whole != [] && num.whole[0] != 0
    ensures Shaped(s, num, a, w, f, end) && f <= n
  {
    hide ScanWhole, ScanFraction, ScanExponent, DigitsIn;
    WholeShape(s, a);
    FractionShape(s, w);
    ExponentShape(s, f);
  }

  lemma LiteralShape(s: Bytes, n: nat, start: nat, num: Number, end: nat) returns (w: nat, f: nat)
    requires Readable(s, n, start, num, end) && Ended(s, end)
    ensures var a := if num.neg then start + 1 else start;
            Shaped(s, num, a, w, f, end) && f <= n && num.neg == (s[start] == MINUS)
  {
    NumberInside(s, n, start);
    w, f := NumberParts(s, start, num, end);
    hide ScanNumber, ScanWhole, ScanFraction, ScanExponent, Shaped, IsInteger;
    PartsShape(s, n, if num.neg then start + 1 else start, num, w, f, end);
  }

  lemma WholeShape(s: Bytes, a: nat)
    requires ScanWhole(s, a).Some?
    ensures var r := ScanWhole(s, a).value;
            a < r.end <= |s| && (forall k :: a <= k < r.end ==> IsDigit(s[k])) && DigitsIn(s, a, r.end) == r.digits &&
            r.digits != [] && (r.digits[0] != 0 ==> !IsDigit(Peek(s, r.end))) &&
            (|r.digits| > 1 ==> r.digits[0] != 0)
  {
    if Peek(s, a) == ZERO {
      assert s[a..a + 1] == [ZERO];
    }
  }

  lemma FractionShape(s: Bytes, w: nat)
    requires w <= |s| && ScanFraction(s, w).Some?
    ensures var r := ScanFraction(s, w).value;
            if r.digits == [] then r.end == w && Peek(s, w) != DOT
            else w < r.end <= |s| && s[w] == DOT && (forall k :: w + 1 <= k < r.end ==> IsDigit(s[k])) &&
                 DigitsIn(s, w + 1, r.end) == r.digits && !IsDigit(Peek(s, r.end))
  {}

  lemma ExponentShape(s: Bytes, f: nat)
    requires f <= |s| && ScanExponent(s, f).Some?
    ensures var r := ScanExponent(s, f).value;
            if r.exp.NoExponent? then r.end == f else f < |s| && IsExpMark(s[f])
  {}

  // ---- the loop over the text ----

  ghost predicate HeldBy(d: Decimal, p: seq<digit>, z: nat)
    reads d, d.d
  {
    d.Valid() && Held(d.d[..], d.nd, d.trunc, p, z)
  }

  /** One digit of the text. */
  method AddDigit(d: Decimal, x: digit, ghost p: seq<digit>, ghost z: nat) returns (ghost zNext: nat)
    requires HeldBy(d, p, z)
    modifies d, d.d
    ensures HeldBy(d, p + [x], zNext) && d.neg == old(d.neg)
    ensures zNext == (if x == 0 && old(d.nd) == 0 then z + 1 else z) && d.dp == old(d.dp) - (zNext - z)
  {
    hide AllZero;
    ghost var buf, nd, trunc := d.d[..], d.nd, d.trunc;
    zNext := z;
    if x == 0 && d.nd == 0 {
      d.dp := d.dp - 1;
      HeldZero(buf, trunc, p, z);
      zNext := z + 1;
      return;
    }
    if d.nd < MAX_DNUM {
      d.d[d.nd] := x;
      d.nd := d.nd + 1;
    } else if x != 0 {
      d.trunc := true;
    }
    HeldDigit(buf, nd, trunc, p, z, x, d.d[..], d.nd, d.trunc);
  }

  /** The digits read so far when the loop stands at i. */
  ghost function ReadDigits(s: Bytes, num: Number, a: nat, w: nat, f: nat, i: nat, sawDot: bool): seq<digit>
    requires (exists end :: Shaped(s, num, a, w, f, end)) && (if sawDot then w < i <= f else a <= i <= w)
  {
    if sawDot then num.whole + DigitsIn(s, w + 1, i) else DigitsIn(s, a, i)
  }

  lemma ReadMore(s: Bytes, num: Number, a: nat, w: nat, f: nat, end: nat, i: nat, sawDot: bool)
    requires Shaped(s, num, a, w, f, end) && (if sawDot then w < i < f else a <= i < w)
    ensures IsDigit(s[i])
    ensures ReadDigits(s, num, a, w, f, i + 1, sawDot) == ReadDigits(s, num, a, w, f, i, sawDot) + [s[i] - ZERO]
  {
    hide ScanExponent;
  }

  lemma ReadStart(s: Bytes, num: Number, a: nat, w: nat, f: nat, end: nat)
    requires Shaped(s, num, a, w, f, end)
    ensures ReadDigits(s, num, a, w, f, a, false) == []
    ensures f == w ==> ReadDigits(s, num, a, w, f, w, false) == num.whole + num.frac
    ensures f > w ==> ReadDigits(s, num, a, w, f, f, true) == num.whole + num.frac
    ensures f > w ==> ReadDigits(s, num, a, w, f, w + 1, true) == ReadDigits(s, num, a, w, f, w, false) == num.whole
  {
    hide ScanExponent;
  }

  /** Where the point ends up behind an integer part of this length: never past the 800th digit. */
  function PointOf(whole: nat): nat { if whole <= MAX_DNUM then whole else MAX_DNUM }

  /** What the decimal exponent is while the digits are read. */
  predicate PointAt(dp: int, whole: nat, z: nat, sawDot: bool) {
    dp == if sawDot then PointOf(whole) - z else 0 - z
  }

  /** The digits and the point; stops at the first other byte.  `plain` tells that this is the end of the
      literal, with one point at most; p are the digits met. */
  method SetDigits(d: Decimal, data: array<byte>, a: nat, stop: int, ghost len: nat, ghost s: Bytes,
      ghost num: Number, ghost w: nat, ghost f: nat, ghost end: nat, ghost plain: bool)
    returns (i: nat, ghost p: seq<digit>, ghost z: nat)
    requires Fresh(data[..], s, len, a) && (plain ==> Shaped(s, num, a, w, f, end) && f <= len && stop == len)
    requires stop == len || stop < a
    requires HeldBy(d, [], 0) && d.dp == 0 && d.nd == 0
    modifies d, d.d
    ensures a <= i <= len && HeldBy(d, p, z) && d.neg == old(d.neg) && a - i <= d.dp <= MAX_DNUM
    ensures plain ==> i == f && p == num.whole + num.frac && d.dp == PointOf(|num.whole|) - z
    ensures stop < a ==> i == a && d.nd == 0 && p == []
  {
    hide ScanExponent, Held, DigitsIn, Fresh, Padded;
    ghost var text := data[..];
    i, p, z := a, [], 0;
    var sawDot := false;
    FreshHere(text, s, len, a);
    if plain {
      ReadStart(s, num, a, w, f, end);
    }
    while i < stop
      invariant a <= i <= len && HeldBy(d, p, z) && d.neg == old(d.neg) && a - i <= d.dp <= MAX_DNUM
      invariant stop < a ==> i == a && d.nd == 0 && p == []
      invariant plain ==> if sawDot then w < i <= f else a <= i <= w
      invariant plain ==> p == ReadDigits(s, num, a, w, f, i, sawDot) && PointAt(d.dp, |num.whole|, z, sawDot)
      invariant !plain || sawDot || d.dp == 0 - z
      decreases len - i
    {
      TextAt(text, s, len, a, i);
      if plain {
        Classify(s, num, a, w, f, end, i, sawDot);
      }
      if IsDigit(data[i]) {
        if plain {
          ReadMore(s, num, a, w, f, end, i, sawDot);
        }
        ghost var zz := z;
        z := AddDigit(d, data[i] - ZERO, p, zz);
        p := p + [data[i] - ZERO];
        i := i + 1;
      } else if data[i] == DOT {
        if plain {
          ReadStart(s, num, a, w, f, end);
          HeldCount(d, num.whole, z);
        }
        sawDot := true;
        d.dp := d.nd;
        i := i + 1;
      } else {
        break;
      }
    }
    if plain {
      if i < stop {
        TextAt(text, s, len, a, i);
        Classify(s, num, a, w, f, end, i, sawDot);
      }
      ReadStart(s, num, a, w, f, end);
      if !sawDot {
        HeldCount(d, num.whole, z);
      }
    }
    if !sawDot {
      d.dp := d.nd;
    }
  }

  lemma FreshHere(data: Bytes, s: Bytes, n: nat, a: nat)
    requires Fresh(data, s, n, a)
    ensures a <= n
  {}

  lemma TextAt(data: Bytes, s: Bytes, n: nat, a: nat, i: nat)
    requires Fresh(data, s, n, a) && a <= i < n
    ensures |data| == |s| && i < |s| && data[i] == s[i]
  {}

  /** Which byte the loop meets: a digit inside the parts, the point between them, another byte at the end. */
  lemma Classify(s: Bytes, num: Number, a: nat, w: nat, f: nat, end: nat, i: nat, sawDot: bool)
    requires Shaped(s, num, a, w, f, end) && (if sawDot then w < i <= f else a <= i <= w)
    ensures if (if sawDot then i < f else i < w) then IsDigit(s[i])
            else if i < f then s[i] == DOT && !IsDigit(s[i]) && !sawDot && i == w
            else s[i] != DOT && !IsDigit(s[i])
  {
    hide ScanExponent;
  }

  lemma HeldCount(d: Decimal, p: seq<digit>, z: nat)
    requires HeldBy(d, p, z) && (|p| > 1 ==> p[0] != 0)
    ensures z <= |p| && d.nd == PointOf(|p|) - z
  {
    if z > 0 {
      assert p[..z][0] == p[0];
    }
  }

  /** The exponent of the text: the loop stops at five digits. */
  method SetExponent(data: array<byte>, f: nat, stop: int, ghost len: nat, ghost s: Bytes) returns (shift: int)
    requires Fresh(data[..], s, len, f) && (stop == len || stop < f)
    ensures f <= |s| && -100000 < shift < 100000 && (stop < f ==> shift == 0)
    ensures stop == len && ScanExponent(s, f).Some? ==> shift == SignedExponent(ScanExponent(s, f).value.exp)
  {
    ghost var text := data[..];
    FreshPadded(text, s, len, f);
    FreshRun(text, s, len, f);
    hide DigitRun, DigitsIn, Fresh, Padded, IsExpMark, Accumulated, ScanExponent, SignedExponent, ScanSign;
    shift := 0;
    if f < stop && IsExpMark(data[f]) {
      var esgn, i := ReadSign(data, f, s, len);
      var power := FewDigits(data, i, stop, s);
      shift := power * esgn;
      if ScanExponent(s, f).Some? {
        HasDigits(s, f, i);
        ExponentAt(s, f, i);
        SignSlice(s, f + 1, i);
      }
    } else if stop == len {
      MarkOrNot(s, len, f);
      NoShift();
    }
  }

  lemma NoShift()
    ensures SignedExponent(NoExponent) == 0
  {}

  /** The sign after the exponent mark. */
  method ReadSign(data: array<byte>, f: nat, ghost s: Bytes, ghost len: nat) returns (esgn: int, i: nat)
    requires Fresh(data[..], s, len, f) && f < len && IsExpMark(s[f])
    ensures i == ScanSign(s, f + 1) < |s| && Fresh(data[..], s, len, i)
    ensures esgn == if s[f + 1] == MINUS then -1 else 1
  {
    ghost var text := data[..];
    FreshPadded(text, s, len, f);
    hide DigitRun, DigitsIn, Fresh, Padded, IsExpMark, Accumulated, ScanExponent;
    esgn := 1;
    i := f + 1;
    MarkInside(text, s, len, f);
    FreshAt(text, s, len, f, i);
    if data[i] == PLUS {
      i := i + 1;
    } else if data[i] == MINUS {
      i := i + 1;
      esgn := -1;
    }
    SignInside(text, s, len, f, i);
    FreshRun(text, s, len, i);
  }

  function NextPower(power: nat, c: byte): nat
    requires IsDigit(c)
  {
    power * 10 + (c - ZERO)
  }

  /** The digits of an exponent, until five of them have been seen. */
  method FewDigits(data: array<byte>, j: nat, len: nat, ghost s: Bytes) returns (power: nat)
    requires Fresh(data[..], s, len, j)
    ensures DigitRun(s, j) <= |s| && power == Accumulated(DigitsIn(s, j, DigitRun(s, j))) < 100000
  {
    ghost var text := data[..];
    FreshPadded(text, s, len, j);
    FreshRun(text, s, len, j);
    hide Accumulating, DigitRun, DigitsIn, Fresh, Padded, Accumulated, IsDigit, NextPower;
    var i := j;
    power := 0;
    EmptyAccumulated(s, j);
    while i < len && IsDigit(data[i]) && power < 10000
      invariant j <= i <= len && data[i] == s[i] && Accumulating(s, j, i, power)
      decreases len - i
    {
      AccumulateOne(s, j, i, power);
      power := NextPower(power, data[i]);
      i := i + 1;
      AccumulatingInside(s, len, j, i, power);
      FreshAt(text, s, len, j, i);
    }
    StoppedEarly(s, len, j, i, power);
    AccumulatedSmall(DigitsIn(s, j, DigitRun(s, j)));
  }

  /** `power` stands for the exponent's digits from j to i. */
  predicate Accumulating(s: Bytes, j: nat, i: nat, power: nat) {
    j <= i <= DigitRun(s, j) <= |s| && power == Accumulated(DigitsIn(s, j, i))
  }

  lemma AccumulateOne(s: Bytes, j: nat, i: nat, power: nat)
    requires Accumulating(s, j, i, power) && i < |s| && IsDigit(s[i]) && power < 10000
    ensures Accumulating(s, j, i + 1, NextPower(power, s[i]))
  {
    hide DigitRun, DigitsIn, Accumulated;
    RunStep(s, j, i);
    AccumulatedStep(s, j, i);
  }

  lemma AccumulatingInside(s: Bytes, n: nat, j: nat, i: nat, power: nat)
    requires Accumulating(s, j, i, power) && DigitRun(s, j) <= n
    ensures i <= n
  {}

  lemma StoppedEarly(s: Bytes, n: nat, j: nat, i: nat, power: nat)
    requires Padded(s, n) && Accumulating(s, j, i, power) && DigitRun(s, j) <= n
    requires i == n || !IsDigit(s[i]) || power >= 10000
    ensures power == Accumulated(DigitsIn(s, j, DigitRun(s, j)))
  {
    EndMark(s, n, j, i);
    hide DigitRun, DigitsIn, Padded, Accumulated;
    if !IsDigit(s[i]) {
      RunIsOver(s, j, i);
    }
    AccumulatedStops(s, j, i, DigitRun(s, j));
  }

  lemma EndMark(s: Bytes, n: nat, j: nat, i: nat)
    requires Padded(s, n) && j <= i <= n
    ensures i == n ==> !IsDigit(s[i])
  {}

  lemma MarkOrNot(s: Bytes, n: nat, f: nat)
    requires Padded(s, n) && f <= n && (f == n || !IsExpMark(s[f]))
    ensures ScanExponent(s, f) == Some(ExponentRun(NoExponent, f))
  {}

  lemma EmptyAccumulated(s: Bytes, j: nat)
    requires j <= |s|
    ensures Accumulated(DigitsIn(s, j, j)) == 0 && Accumulating(s, j, j, 0)
  {}

  lemma HasDigits(s: Bytes, f: nat, j: nat)
    requires f < |s| && IsExpMark(s[f]) && j == ScanSign(s, f + 1) < |s| && ScanExponent(s, f).Some?
    ensures IsDigit(s[j])
  {}

  /** Once five digits are in, the rest changes nothing. */
  lemma {:induction false} AccumulatedStops(s: Bytes, j: nat, i: nat, k: nat)
    requires j <= i <= k <= DigitRun(s, j) <= |s|
    requires Accumulated(DigitsIn(s, j, i)) >= 10000 || i == k
    ensures Accumulated(DigitsIn(s, j, k)) == Accumulated(DigitsIn(s, j, i))
    decreases k
  {
    hide DigitRun, DigitsIn, Accumulated;
    if i < k {
      AccumulatedStops(s, j, i, k - 1);
      AccumulatedStep(s, j, k - 1);
    }
  }

  method InitDecimal(d: Decimal)
    requires d.Valid()
    modifies d, d.d
    ensures HeldBy(d, [], 0) && d.nd == 0 && d.dp == 0 && !d.neg && !d.trunc
  {
    forall k | 0 <= k < d.d.Length {
      d.d[k] := 0;
    }
    d.nd, d.dp, d.neg, d.trunc := 0, 0, false, false;
    HeldNothing(d.d[..]);
  }

  /** The value the slow path reads: the exponent as its loop accumulates it, and the point no further
      than behind the 800th digit. */
  function SlowMagnitude(num: Number): (r: real)
    ensures r >= 0.0
  {
    MagnitudeSign(num.whole + num.frac, PointOf(|num.whole|) + SignedExponent(num.exp));
    Times(Frac(num.whole + num.frac), Ten(PointOf(|num.whole|) + SignedExponent(num.exp)))
  }

  /** That is the value of the literal unless the integer part is longer or the exponent has more than
      five digits; for zero it always is. */
  lemma SlowMagnitudeExact(num: Number)
    ensures SlowMagnitude(num) == Magnitude(num) <==>
            AllZero(num.whole + num.frac) ||
            PointOf(|num.whole|) + SignedExponent(num.exp) == |num.whole| + Exponent10(num.exp)
    ensures |num.whole| <= MAX_DNUM && SmallExponent(num) ==> SlowMagnitude(num) == Magnitude(num)
  {
    hide Frac, Times, Ten, SignedExponent, Exponent10, AllZero, SmallExponent;
    var f := Frac(num.whole + num.frac);
    var m, n := PointOf(|num.whole|) + SignedExponent(num.exp), |num.whole| + Exponent10(num.exp);
    FracZero(num.whole + num.frac);
    FracRange(num.whole + num.frac);
    TimesUnit(Ten(m));
    TimesUnit(Ten(n));
    if f > 0.0 {
      TimesComm(f, Ten(m));
      TimesComm(f, Ten(n));
      TimesOrder(Ten(m), Ten(n), f);
      TimesOrder(Ten(n), Ten(m), f);
      if m < n {
        TenMono(m + 1, n);
        TenStep(m);
      } else if n < m {
        TenMono(n + 1, m);
        TenStep(n);
      }
    }
    if SmallExponent(num) {
      ExponentRead(num);
    }
  }

  /** With the exponent added the decimal is the literal. */
  lemma DecimalDone(d: Decimal, num: Number, z: nat, dp: int)
    requires HeldBy(d, num.whole + num.frac, z) && dp == PointOf(|num.whole|) - z
    requires d.dp == dp + SignedExponent(num.exp)
    ensures d.Leading() && Holds(d, SlowMagnitude(num))
  {
    hide Held, Times, Frac, Ten, SignedExponent, Cut;
    var p := num.whole + num.frac;
    if d.nd > 0 {
      HeldLeading(d.d[..], d.nd, d.trunc, p, z);
    } else {
      HeldAll(d.d[..], d.nd, d.trunc, p, z);
    }
    HeldValue(d.d[..], d.nd, d.trunc, p, z, PointOf(|num.whole|) + SignedExponent(num.exp));
    assert d.d[..][..d.nd] == d.d[..d.nd];
  }

  lemma HeldAll(buf: seq<digit>, nd: nat, trunc: bool, p: seq<digit>, z: nat)
    requires Held(buf, nd, trunc, p, z) && nd == 0
    ensures !trunc
  {
    assert p[z + nd..] == [];
  }

  /** Whatever digits a decimal holds, they are some number's. */
  lemma SomeValue(d: Decimal, p: seq<digit>, z: nat) returns (x: real)
    requires HeldBy(d, p, z)
    ensures d.Leading() && Holds(d, x) && (p == [] ==> x == 0.0)
  {
    FracZero([]);
    TimesUnit(Ten(d.dp + z));
    hide Held, Times, Frac, Ten, Cut, AllZero;
    if d.nd > 0 {
      HeldLeading(d.d[..], d.nd, d.trunc, p, z);
    } else {
      HeldAll(d.d[..], d.nd, d.trunc, p, z);
    }
    HeldValue(d.d[..], d.nd, d.trunc, p, z, d.dp + z);
    assert d.d[..][..d.nd] == d.d[..d.nd];
    x := Times(Frac(p), Ten(d.dp + z));
  }

  /** The literal at `start`, in a decimal with no leading zero, cut to 800 digits.  When a second point
      follows, the decimal holds some other number; when n is negative, no digit is read and it holds zero. */
  method SetDecimal(d: Decimal, data: array<byte>, start: nat, n: Int32, ghost len: nat, ghost s: Bytes,
      ghost num: Number, ghost end: nat) returns (ghost x: real)
    requires d.Valid() && Fresh(data[..], s, len, start) && Readable(s, len, start, num, end)
    requires n == len - start || n < 0
    modifies d, d.d
    ensures d.Valid() && d.Leading() && d.neg == num.neg && Holds(d, x)
    ensures n >= 0 && Ended(s, end) ==> x == SlowMagnitude(num)
    ensures n < 0 ==> x == 0.0
    ensures n < 0 || (Ended(s, end) && end - start + 100000 < INT_END) ==> 0 - INT_END <= d.dp < INT_END
  {
    hide Readable, Held, Fresh, SignedExponent, Times, Frac, Ten, Shaped, ScanExponent, SlowMagnitude, Holds, Ended;
    ghost var text := data[..];
    ghost var plain := n >= 0 && Ended(s, end);
    ghost var w, f := 0, 0;
    LiteralSign(s, len, start, num, end, text);
    if plain {
      w, f := LiteralStart(s, len, start, num, end, text);
    }
    InitDecimal(d);
    var a, stop := start, start + n; // positions count from the buffer, in the original from the literal
    if data[a] == MINUS {
      a := a + 1;
      d.neg := true;
    }
    FreshFrom(text, s, len, start, a);
    var i;
    ghost var p, z;
    i, p, z := SetDigits(d, data, a, stop, len, s, num, w, f, end, plain);
    FreshFrom(text, s, len, start, i);
    var shift := SetExponent(data, i, stop, len, s);
    ghost var dp := d.dp;
    d.dp := d.dp + shift;
    if plain {
      DecimalDone(d, num, z, dp);
      LiteralEnd(s, num, a, w, f, end);
      x := SlowMagnitude(num);
    } else {
      x := SomeValue(d, p, z);
    }
  }

  lemma LiteralEnd(s: Bytes, num: Number, a: nat, w: nat, f: nat, end: nat)
    requires Shaped(s, num, a, w, f, end)
    ensures f <= end
  {}

  lemma LiteralSign(s: Bytes, n: nat, start: nat, num: Number, end: nat, text: Bytes)
    requires Readable(s, n, start, num, end) && Fresh(text, s, n, start)
    ensures |text| == n + PADDING && start < n && num.neg == (text[start] == MINUS)
    ensures (if num.neg then start + 1 else start) <= n
  {
    hide ScanWhole, ScanFraction, ScanExponent;
  }

  lemma LiteralStart(s: Bytes, n: nat, start: nat, num: Number, end: nat, text: Bytes) returns (w: nat, f: nat)
    requires Readable(s, n, start, num, end) && Fresh(text, s, n, start) && Ended(s, end)
    ensures var a := if num.neg then start + 1 else start;
            Shaped(s, num, a, w, f, end) && a <= f <= n && ScanExponent(s, f) == Some(ExponentRun(num.exp, end))
    ensures |text| == n + PADDING && start < n && num.neg == (text[start] == MINUS)
  {
    hide ScanExponent, ScanNumber;
    w, f := LiteralShape(s, n, start, num, end);
  }

  lemma FreshPadded(data: Bytes, s: Bytes, n: nat, i: nat)
    requires Fresh(data, s, n, i)
    ensures Padded(s, n) && |data| == |s| == n + PADDING
  {}
}
