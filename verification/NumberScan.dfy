/** Reading a number literal: the literal's end, exact 64-bit integers, and for the rest a mantissa of
    at most 19 digits with a power of ten. */
module NumberScan {
  import opened Options
  import opened Powers
  import opened Digits
  import opened Json
  import opened Lexer
  import opened Sentinel
  import opened Str2Int
  import opened Unescape

  /** What a literal turns into before any rounding. */
  datatype Literal =
    | ZeroDouble(neg: bool)
    | Unsigned(u: nat)
    | Negative(i: int)
    | NegatedMantissa(man: nat)
    | Scaled(neg: bool, man: nat, exp10: Int32, trunc: bool)

  const LONGEST_DIGITS := 17
  const SAFE_DIGITS := 19
  const MANTISSA_END := 10_000_000_000_000_000_000

  predicate IsInteger(n: Number) { n.frac == [] && n.exp.NoExponent? }

  /** The exponent as the loop accumulates it: it stops growing at five digits. */
  function Accumulated(d: seq<digit>): nat {
    if d == [] then 0
    else
      var e := Accumulated(d[..|d| - 1]);
      if e < 10000 then e * 10 + d[|d| - 1] else e
  }

  /** Below 100000 nothing is lost. */
  lemma {:induction false} AccumulatedExact(d: seq<digit>)
    ensures NatOf(d) < 100000 ==> Accumulated(d) == NatOf(d)
    ensures NatOf(d) >= 100000 ==> 10000 <= Accumulated(d) < 100000
  {
    if d != [] {
      AccumulatedExact(d[..|d| - 1]);
    }
  }

  lemma AccumulatedSmall(d: seq<digit>)
    ensures Accumulated(d) < 100000
  {
    AccumulatedExact(d);
  }

  function SignedExponent(e: Exponent): int {
    if e.NoExponent? then 0
    else if e.sign == [MINUS] then 0 - Accumulated(e.digits) else Accumulated(e.digits)
  }

  /** The digits dropped are exactly what `trunc` reports, unless 20 or more integer digits are
      directly followed by an exponent. */
  predicate TruncHonest(n: Number) { !(|n.whole| > SAFE_DIGITS && n.frac == [] && n.exp.Exponent?) }

  function Least(a: nat, b: nat): nat { if a < b then a else b }

  function LeadingZeros(d: seq<digit>): (z: nat)
    ensures z <= |d|
  {
    if d == [] || d[0] != 0 then 0 else 1 + LeadingZeros(d[1..])
  }

  /** How many fraction digits go into a mantissa of `head` digits: until it has 17. */
  function FractionKept(head: nat, frac: nat): nat {
    if head < LONGEST_DIGITS then Least(frac, LONGEST_DIGITS - head) else 0
  }

  /** How many digits make up the mantissa: behind a lone zero, 17 from the first other digit on; else 19 of the
      integer part, and fraction digits until there are 17. */
  function KeptCount(whole: seq<digit>, frac: seq<digit>): nat {
    if whole == [0] then 1 + Least(|frac|, LeadingZeros(frac) + LONGEST_DIGITS)
    else
      var head := Least(|whole|, SAFE_DIGITS);
      head + FractionKept(head, |frac|)
  }

  /** The literal has been read right: of its digits the first `kept` make up the mantissa. */
  ghost predicate Describes(x: Literal, n: Number, kept: nat) {
    var digits := n.whole + n.frac;
    match x
    case ZeroDouble(neg) => neg == n.neg && n.exp.Exponent? && NatOf(digits) == 0
    case Unsigned(u) => IsInteger(n) && u == NatOf(n.whole) < U64_END && (n.neg ==> u == 0)
    case Negative(i) => IsInteger(n) && n.neg && i == 0 - NatOf(n.whole) && 0 < NatOf(n.whole) <= I64_END
    case NegatedMantissa(man) => IsInteger(n) && n.neg && man == NatOf(n.whole) && I64_END < man < U64_END
    case Scaled(neg, man, exp10, trunc) =>
      && neg == n.neg && kept == KeptCount(n.whole, n.frac) <= |digits|
      && man == NatOf(digits[..kept]) < MANTISSA_END
      && exp10 == |n.whole| + SignedExponent(n.exp) - kept
      && (trunc ==> kept < |digits| && man >= 0x10_0000_0000_0000)
      && (!trunc && TruncHonest(n) ==> kept == |digits|)
      && (IsInteger(n) ==> NatOf(n.whole) >= U64_END)
      && (!TruncHonest(n) ==> kept == SAFE_DIGITS && !trunc)
      && (man == 0 ==> n.exp.NoExponent?)
  }

  /** The parser reads the buffer only from the literal on, where it still holds the text. */
  predicate Fresh(data: Bytes, s: Bytes, n: nat, i: nat) {
    Padded(s, n) && i <= n && |data| == |s| && forall k :: i <= k < |s| ==> data[k] == s[k]
  }

  lemma FreshAt(data: Bytes, s: Bytes, n: nat, i: nat, k: nat)
    requires Fresh(data, s, n, i) && i <= k < |s|
    ensures data[k] == s[k] && |data| == |s| == n + PADDING
  {}

  lemma FreshRun(data: Bytes, s: Bytes, n: nat, i: nat)
    requires Fresh(data, s, n, i)
    ensures DigitRun(s, i) <= n && n + PADDING == |data| == |s| && data[i] == s[i]
  {
    DigitsInside(s, n, i);
  }

  lemma FreshFrom(data: Bytes, s: Bytes, n: nat, i: nat, k: nat)
    requires Fresh(data, s, n, i) && i <= k <= n
    ensures Fresh(data, s, n, k)
  {}

  // ---- loops over digits ----

  lemma NineteenDigits(d: seq<digit>)
    requires |d| <= SAFE_DIGITS
    ensures NatOf(d) < MANTISSA_END
  {
    NatOfBound(d);
    PowMono(10, |d|, SAFE_DIGITS);
    TenToNineteen(SAFE_DIGITS);
    hide Pow, NatOf;
  }

  lemma TenToNineteen(k: nat)
    requires k == 19
    ensures Pow(10, k) == 10_000_000_000_000_000_000
  {
    SmallPowers();
    assert Pow(10, k) == 10 * Pow(10, k - 1);
    hide Pow;
  }

  /** A digit string of n digits without a leading zero spells at least 10^(n-1). */
  lemma {:induction false} NatOfLower(d: seq<digit>)
    requires d != [] && d[0] > 0
    ensures NatOf(d) >= Pow(10, |d| - 1)
  {
    if |d| > 1 {
      NatOfLower(d[..|d| - 1]);
    }
  }

  /** 17 significant digits exceed 2^52, 21 of them 2^64. */
  lemma LongMantissa(d: seq<digit>)
    requires d != [] && d[0] > 0
    ensures NatOf(d) > 0
    ensures |d| >= LONGEST_DIGITS ==> NatOf(d) >= 0x10_0000_0000_0000
    ensures |d| >= 20 ==> NatOf(d) > I64_END
    ensures |d| >= 21 ==> NatOf(d) >= U64_END
  {
    NatOfLower(d);
    var k: nat := 19;
    TenToNineteen(k);
    assert Pow(10, k + 1) == 10 * Pow(10, k);
    assert Pow(10, k) == 1000 * Pow(10, k - 3) by {
      assert Pow(10, k) == 10 * Pow(10, k - 1);
      assert Pow(10, k - 1) == 10 * Pow(10, k - 2);
      assert Pow(10, k - 2) == 10 * Pow(10, k - 3);
    }
    hide Pow, NatOf;
    if |d| >= 21 {
      PowMono(10, k + 1, |d| - 1);
    } else if |d| >= 20 {
      PowMono(10, k, |d| - 1);
    } else if |d| >= LONGEST_DIGITS {
      PowMono(10, k - 3, |d| - 1);
    }
  }

  /** The value of the digits from i on, modulo 2^64. */
  method Str2int(data: array<byte>, i: nat, ghost s: Bytes, ghost n: nat) returns (sum: nat, end: nat)
    requires Fresh(data[..], s, n, i)
    ensures end == DigitRun(s, i) <= n && (end - i <= SAFE_DIGITS ==> sum == NatOf(DigitsIn(s, i, end)))
  {
    hide DigitRun, NatOf, DigitsIn, Fresh, Padded;
    ghost var d := data[..];
    sum, end := 0, i;
    FreshRun(d, s, n, i);
    RunStart(s, i);
    while IsDigit(data[end])
      invariant i <= end <= DigitRun(s, i) && sum < U64_END && data[end] == s[end]
      invariant end - i <= SAFE_DIGITS ==> sum == NatOf(DigitsIn(s, i, end))
      decreases n - end
    {
      RunStep(s, i, end);
      if end - i < SAFE_DIGITS {
        NineteenDigits(DigitsIn(s, i, end + 1));
      }
      sum := (sum * 10 + (data[end] - ZERO)) % U64_END;
      end := end + 1;
      FreshAt(d, s, n, i, end);
    }
    RunIsOver(s, i, end);
  }

  lemma RunStart(s: Bytes, i: nat)
    requires i <= |s|
    ensures NatOf(DigitsIn(s, i, i)) == 0
  {}

  /** One more digit. */
  lemma RunStep(s: Bytes, i: nat, j: nat)
    requires i <= j < |s| && j <= DigitRun(s, i) && IsDigit(s[j])
    ensures j < DigitRun(s, i)
    ensures NatOf(DigitsIn(s, i, j + 1)) == 10 * NatOf(DigitsIn(s, i, j)) + (s[j] - ZERO)
  {
    var d := DigitsIn(s, i, j + 1);
    assert d[..|d| - 1] == DigitsIn(s, i, j);
  }

  /** The exponent whose mark is at i. */
  method DoubleExp(data: array<byte>, i: nat, exp10: Int32, ghost s: Bytes, ghost n: TextSize)
    returns (err: Error, end: nat, exp: Int32)
    requires Fresh(data[..], s, n, i) && IsExpMark(s[i]) && 0 - n <= exp10 <= n
    ensures match ScanExponent(s, i)
            case None => err != NoError
            case Some(x) => err == NoError && end == x.end <= n && exp == exp10 + SignedExponent(x.exp)
  {
    hide DigitRun, DigitsIn, Fresh, Padded, IsExpMark, SignedExponent;
    var esm: int := 1;
    ghost var d := data[..];
    MarkInside(d, s, n, i);
    end := i + 1;
    FreshAt(d, s, n, i, i + 1);
    if data[end] == MINUS || data[end] == PLUS {
      esm := if data[end] == MINUS then -1 else 1;
      end := end + 1;
    }
    exp := exp10;
    ghost var j := end;
    SignInside(d, s, n, i, j);
    FreshAt(d, s, n, i, j);
    if !IsDigit(data[end]) {
      NoExponentDigits(s, i, j);
      return InvalidChar, end, exp;
    }
    var power;
    power, end := AccumulateDigits(data, end, s, n);
    exp := exp10 + power * esm;
    err := NoError;
    ExponentAt(s, i, j);
    SignSlice(s, i + 1, j);
  }

  lemma MarkInside(data: Bytes, s: Bytes, n: nat, i: nat)
    requires Fresh(data, s, n, i) && IsExpMark(s[i])
    ensures i + 1 <= n && n + PADDING == |s| == |data|
  {}

  lemma SignInside(data: Bytes, s: Bytes, n: nat, i: nat, j: nat)
    requires Fresh(data, s, n, i) && i + 1 <= n
    requires j == if data[i + 1] == MINUS || data[i + 1] == PLUS then i + 2 else i + 1
    ensures j == ScanSign(s, i + 1) <= n && Fresh(data, s, n, j)
  {}

  lemma NoExponentDigits(s: Bytes, i: nat, j: nat)
    requires i < |s| && IsExpMark(s[i]) && j == ScanSign(s, i + 1) && !IsDigit(Peek(s, j))
    ensures ScanExponent(s, i) == None
  {}

  lemma ExponentAt(s: Bytes, i: nat, j: nat)
    requires i < |s| && IsExpMark(s[i]) && j == ScanSign(s, i + 1) < |s| && IsDigit(s[j])
    ensures DigitRun(s, j) <= |s|
    ensures ScanExponent(s, i) ==
            Some(ExponentRun(Exponent(s[i], s[i + 1..j], DigitsIn(s, j, DigitRun(s, j))), DigitRun(s, j)))
    ensures SignedExponent(ScanExponent(s, i).value.exp) ==
            Accumulated(DigitsIn(s, j, DigitRun(s, j))) * if s[i + 1..j] == [MINUS] then -1 else 1
  {}

  /** The digits of an exponent, accumulated until five of them have been seen. */
  method AccumulateDigits(data: array<byte>, j: nat, ghost s: Bytes, ghost n: nat) returns (power: nat, end: nat)
    requires Fresh(data[..], s, n, j)
    ensures end == DigitRun(s, j) <= n && power == Accumulated(DigitsIn(s, j, end)) < 100000
  {
    hide DigitRun, DigitsIn, Fresh, Padded;
    ghost var d := data[..];
    power, end := 0, j;
    FreshRun(d, s, n, j);
    EmptyRun(s, j);
    while IsDigit(data[end])
      invariant j <= end <= DigitRun(s, j) && power == Accumulated(DigitsIn(s, j, end))
      invariant data[end] == s[end]
      decreases n - end
    {
      RunStep(s, j, end);
      AccumulatedStep(s, j, end);
      if power < 10000 {
        power := power * 10 + (data[end] - ZERO);
      }
      end := end + 1;
      FreshAt(d, s, n, j, end);
    }
    RunIsOver(s, j, end);
    AccumulatedSmall(DigitsIn(s, j, end));
  }

  /** The run of digits ends where the first other byte is. */
  lemma RunIsOver(s: Bytes, i: nat, j: nat)
    requires i <= j <= DigitRun(s, i) && j < |s| && !IsDigit(s[j])
    ensures j == DigitRun(s, i)
  {}

  lemma SignSlice(s: Bytes, i: nat, j: nat)
    requires i < |s| && j == ScanSign(s, i)
    ensures s[i..j] == if Peek(s, i) == MINUS then [MINUS] else if Peek(s, i) == PLUS then [PLUS] else []
  {}

  lemma EmptyRun(s: Bytes, i: nat)
    requires i <= |s|
    ensures DigitsIn(s, i, i) == []
  {}

  lemma AccumulatedStep(s: Bytes, i: nat, j: nat)
    requires i <= j < DigitRun(s, i) <= |s|
    ensures var e := Accumulated(DigitsIn(s, i, j));
            Accumulated(DigitsIn(s, i, j + 1)) == if e < 10000 then e * 10 + (s[j] - ZERO) else e
  {
    hide DigitRun;
    var d := DigitsIn(s, i, j + 1);
    assert d[..|d| - 1] == DigitsIn(s, i, j);
  }

  /** Appends fraction digits from i to the mantissa, up to 17 in all; `m` of them are kept.  The
      mantissa spells the digits `before`. */
  method DoubleFract(data: array<byte>, i: nat, man: nat, manNd: nat, ghost before: seq<digit>, ghost s: Bytes,
      ghost n: nat) returns (mantissa: nat, m: nat, end: nat, trunc: bool)
    requires Fresh(data[..], s, n, i) && man == NatOf(before) && manNd == |before| <= SAFE_DIGITS
    ensures end == DigitRun(s, i) <= n && i + m <= end && trunc == (i + m < end)
    ensures mantissa == NatOf(before + DigitsIn(s, i, i + m)) && |before| + m <= SAFE_DIGITS
    ensures trunc ==> |before| + m >= LONGEST_DIGITS
    ensures m == FractionKept(|before|, end - i)
  {
    hide DigitRun, DigitsIn, NatOf, Pow, Fresh, Padded;
    ghost var d := data[..];
    mantissa, m := man, 0;
    FreshRun(d, s, n, i);
    EmptyRun(s, i);
    assert before + [] == before;
    if manNd < LONGEST_DIGITS {
      mantissa, m := AppendDigits(data, i, man, manNd, before, s, n);
    }
    end := i + m;
    trunc := false;
    FreshAt(d, s, n, i, end);
    while IsDigit(data[end])
      invariant i + m <= end <= DigitRun(s, i) && trunc == (i + m < end) && data[end] == s[end]
      invariant trunc ==> manNd + m >= LONGEST_DIGITS
      decreases n - end
    {
      RunStep(s, i, end);
      trunc := true;
      end := end + 1;
      FreshAt(d, s, n, i, end);
    }
    RunIsOver(s, i, end);
  }

  /** A vector of digits, then single ones, until the mantissa has 17 digits or they end. */
  method AppendDigits(data: array<byte>, i: nat, man: nat, manNd: nat, ghost before: seq<digit>, ghost s: Bytes,
      ghost n: nat) returns (mantissa: nat, m: nat)
    requires Fresh(data[..], s, n, i) && man == NatOf(before) && manNd == |before| < LONGEST_DIGITS
    ensures i + m <= DigitRun(s, i) <= n && manNd + m <= LONGEST_DIGITS
    ensures mantissa == NatOf(before + DigitsIn(s, i, i + m))
    ensures manNd + m < LONGEST_DIGITS ==> i + m == DigitRun(s, i)
  {
    hide DigitRun, DigitsIn, NatOf, Pow, Fresh, Padded;
    ghost var d := data[..];
    FreshRun(d, s, n, i);
    var sum;
    sum, m := SimdStr2int(data[i..i + LANES], LONGEST_DIGITS - manNd);
    VectorIsText(d, s, n, i);
    RunCovers(s, i, data[i..i + LANES], m);
    mantissa := man * Pow(10, m) + sum;
    NatOfConcat(before, DigitsIn(s, i, i + m));
    FreshAt(d, s, n, i, i + m);
    while manNd + m < LONGEST_DIGITS && IsDigit(data[i + m])
      invariant i + m <= DigitRun(s, i) && manNd + m <= LONGEST_DIGITS && data[i + m] == s[i + m]
      invariant mantissa == NatOf(before + DigitsIn(s, i, i + m))
      decreases LONGEST_DIGITS - m
    {
      RunStep(s, i, i + m);
      AppendStep(before, s, i, i + m);
      mantissa := mantissa * 10 + (data[i + m] - ZERO);
      m := m + 1;
      FreshAt(d, s, n, i, i + m);
    }
    if manNd + m < LONGEST_DIGITS {
      RunIsOver(s, i, i + m);
    }
  }

  lemma VectorIsText(data: Bytes, s: Bytes, n: nat, i: nat)
    requires Fresh(data, s, n, i)
    ensures data[i..i + LANES] == s[i..i + LANES]
  {}

  lemma RunCovers(s: Bytes, i: nat, v: Bytes, m: nat)
    requires i + |v| <= |s| && m <= |v| && v == s[i..i + |v|] && forall k :: 0 <= k < m ==> IsDigit(v[k])
    ensures i + m <= DigitRun(s, i) && DigitsIn(s, i, i + m) == DigitsOfText(v[..m])
  {
    forall k | i <= k < i + m
      ensures IsDigit(s[k])
    {
      assert s[k] == v[k - i];
    }
    RunAtLeast(s, i, i + m);
    assert s[i..i + m] == v[..m];
  }

  lemma {:induction false} RunAtLeast(s: Bytes, i: nat, j: nat)
    requires i <= j <= |s| && forall k :: i <= k < j ==> IsDigit(s[k])
    ensures j <= DigitRun(s, i)
    decreases j - i
  {
    if i < j {
      assert IsDigit(s[i]);
      RunAtLeast(s, i + 1, j);
    }
  }

  lemma AppendStep(before: seq<digit>, s: Bytes, i: nat, j: nat)
    requires i <= j < DigitRun(s, i) <= |s|
    ensures NatOf(before + DigitsIn(s, i, j + 1)) == 10 * NatOf(before + DigitsIn(s, i, j)) + (s[j] - ZERO)
  {
    hide DigitRun;
    var d := before + DigitsIn(s, i, j + 1);
    assert d[..|d| - 1] == before + DigitsIn(s, i, j);
  }

  // ---- the whole literal ----

  /** The literal whose integer part has been read up to i. */
  function Rest(s: Bytes, neg: bool, whole: seq<digit>, i: nat): (r: Option<NumberRun>)
    requires i <= |s|
    ensures r.Some? ==> i <= r.value.end <= |s|
  {
    match ScanFraction(s, i)
    case None => None
    case Some(f) =>
      match ScanExponent(s, f.end)
      case None => None
      case Some(e) => Some(NumberRun(Number(neg, whole, f.digits, e.exp), e.end))
  }

  /** The result of reading, given what the grammar says of the text. */
  ghost predicate Reads(r: Option<NumberRun>, err: Error, end: nat, x: Literal, kept: nat, n: nat) {
    match r
    case None => err != NoError
    case Some(run) => err == NoError && end == run.end <= n && Describes(x, run.n, kept)
  }

  /** The digits of a number with integer part 0: those after the leading zeros are kept. */
  lemma ZeroKept(s: Bytes, i: nat, j: nat, k: nat)
    requires i <= j <= k <= DigitRun(s, i) <= |s| && forall p :: i <= p < j ==> s[p] == ZERO
    ensures var d := [0] + DigitsIn(s, i, DigitRun(s, i));
            NatOf(d[..1 + (k - i)]) == NatOf(DigitsIn(s, j, k))
  {
    hide DigitRun, NatOf, Pow;
    var z := [0] + DigitsIn(s, i, j);
    ZeroPrefix(s, i, j, k);
    NatOfConcat(z, DigitsIn(s, j, k));
    NatOfZero(z);
    NothingTimes(Pow(10, k - j));
  }

  lemma NothingTimes(p: nat)
    ensures 0 * p == 0
  {}

  lemma ZeroPrefix(s: Bytes, i: nat, j: nat, k: nat)
    requires i <= j <= k <= DigitRun(s, i) <= |s|
    ensures ([0] + DigitsIn(s, i, DigitRun(s, i)))[..1 + (k - i)] == ([0] + DigitsIn(s, i, j)) + DigitsIn(s, j, k)
  {
    hide DigitRun;
  }

  lemma {:induction false} RunFrom(s: Bytes, i: nat, j: nat)
    requires i <= j <= DigitRun(s, i) <= |s|
    ensures DigitRun(s, j) == DigitRun(s, i)
    decreases j - i
  {
    if i < j {
      RunFrom(s, i + 1, j);
    }
  }

  // What Rest is, once the fraction has been read.

  lemma NoFraction(s: Bytes, i: nat)
    requires i < |s| && s[i] != DOT
    ensures ScanFraction(s, i) == Some(Run([], i))
  {}

  lemma BadFraction(s: Bytes, neg: bool, whole: seq<digit>, i: nat)
    requires i + 1 < |s| && s[i] == DOT && !IsDigit(s[i + 1])
    ensures Rest(s, neg, whole, i) == None
  {}

  lemma FractionAt(s: Bytes, i: nat)
    requires i + 1 < |s| && s[i] == DOT && IsDigit(s[i + 1])
    ensures var r := DigitRun(s, i + 1);
            i + 1 < r <= |s| && ScanFraction(s, i) == Some(Run(DigitsIn(s, i + 1, r), r))
  {}

  /** The exponent at i, if there is one. */
  method Finish(data: array<byte>, i: nat, exp10: Int32, ghost s: Bytes, ghost n: TextSize)
    returns (err: Error, end: nat, exp: Int32)
    requires Fresh(data[..], s, n, i) && 0 - n <= exp10 <= n
    ensures match ScanExponent(s, i)
            case None => err != NoError
            case Some(x) => err == NoError && end == x.end <= n && exp == exp10 + SignedExponent(x.exp)
  {
    if IsExpMark(data[i]) {
      err, end, exp := DoubleExp(data, i, exp10, s, n);
    } else {
      err, end, exp := NoError, i, exp10;
    }
  }

  lemma ZeroReads(s: Bytes, neg: bool, whole: seq<digit>, i: nat, f: Run, err: Error, end: nat, n: nat)
    requires i <= |s| && ScanFraction(s, i) == Some(f) && f.end < |s| && IsExpMark(s[f.end])
    requires NatOf(whole + f.digits) == 0
    requires match ScanExponent(s, f.end)
             case None => err != NoError
             case Some(x) => err == NoError && end == x.end <= n
    ensures Reads(Rest(s, neg, whole, i), err, end, ZeroDouble(neg), 0, n)
  {
    hide ScanFraction, NatOf;
  }

  lemma ScaledReads(s: Bytes, neg: bool, whole: seq<digit>, i: nat, f: Run, kept: nat, man: nat, exp10: int,
      trunc: bool, err: Error, end: nat, exp: Int32, n: nat)
    requires i <= |s| && ScanFraction(s, i) == Some(f) && f.end < |s|
    requires kept == KeptCount(whole, f.digits) <= |whole + f.digits|
    requires man == NatOf((whole + f.digits)[..kept]) < MANTISSA_END
    requires exp10 == |whole| - kept
    requires trunc ==> kept < |whole + f.digits| && man >= 0x10_0000_0000_0000
    requires trunc || kept == |whole + f.digits| ||
             (|whole| > SAFE_DIGITS && f.digits == [] && IsExpMark(s[f.end]))
    requires f.digits == [] && !IsExpMark(s[f.end]) ==> NatOf(whole) >= U64_END
    requires |whole| > SAFE_DIGITS && f.digits == [] && IsExpMark(s[f.end]) ==> kept == SAFE_DIGITS && !trunc
    requires man == 0 ==> !IsExpMark(s[f.end])
    requires match ScanExponent(s, f.end)
             case None => err != NoError
             case Some(x) => err == NoError && end == x.end <= n && exp == exp10 + SignedExponent(x.exp)
    ensures Reads(Rest(s, neg, whole, i), err, end, Scaled(neg, man, exp, trunc), kept, n)
  {
    hide ScanFraction, ScanExponent, NatOf, SignedExponent;
    MarkedOrPlain(s, f.end);
    var x := ScanExponent(s, f.end);
    if x.Some? {
      var num := Number(neg, whole, f.digits, x.value.exp);
      assert Rest(s, neg, whole, i) == Some(NumberRun(num, x.value.end));
      assert num.whole + num.frac == whole + f.digits;
    }
  }

  lemma MarkedOrPlain(s: Bytes, i: nat)
    requires i < |s|
    ensures if IsExpMark(s[i]) then ScanExponent(s, i).Some? ==> ScanExponent(s, i).value.exp.Exponent?
            else ScanExponent(s, i) == Some(ExponentRun(NoExponent, i)) && SignedExponent(NoExponent) == 0
  {}

  lemma IntegerReads(s: Bytes, neg: bool, whole: seq<digit>, i: nat, x: Literal, n: nat)
    requires i < |s| && s[i] != DOT && !IsExpMark(s[i]) && i <= n
    requires match x
             case Unsigned(u) => u == NatOf(whole) < U64_END && (neg ==> u == 0)
             case Negative(v) => neg && v == 0 - NatOf(whole) && 0 < NatOf(whole) <= I64_END
             case NegatedMantissa(man) => neg && man == NatOf(whole) && I64_END < man < U64_END
             case _ => false
    ensures Reads(Rest(s, neg, whole, i), NoError, i, x, 0, n)
  {
    hide NatOf;
  }

  // ---- the branches ----

  /** A literal whose integer part is the zero before i. */
  method ParseZero(data: array<byte>, i: nat, neg: bool, ghost s: Bytes, ghost n: TextSize)
    returns (err: Error, end: nat, x: Literal, ghost kept: nat)
    requires Fresh(data[..], s, n, i)
    ensures Reads(Rest(s, neg, [0], i), err, end, x, kept, n)
  {
    hide DigitRun, DigitsIn, NatOf, ScanExponent, ScanFraction, Rest, Reads;
    OneDigit([0]);
    assert [0] + [] == [0];
    x, kept, end := Unsigned(0), 0, i;
    if data[i] == DOT {
      if !IsDigit(data[i + 1]) {
        BadFraction(s, neg, [0], i);
        FailReads(end, x, n);
        return InvalidChar, end, x, kept;
      }
      err, end, x, kept := ParseZeroFraction(data, i, neg, s, n);
      return;
    }
    NoFraction(s, i);
    if IsExpMark(data[i]) {
      var exp;
      err, end, exp := DoubleExp(data, i, 0, s, n);
      x := ZeroDouble(neg);
      ZeroReads(s, neg, [0], i, Run([], i), err, end, n);
    } else {
      IntegerReads(s, neg, [0], i, x, n);
      err := NoError;
    }
  }

  lemma FailReads(end: nat, x: Literal, n: nat)
    ensures Reads(None, InvalidChar, end, x, 0, n)
  {}

  /** The zeros after the point at i. */
  method SkipZeros(data: array<byte>, i: nat, ghost s: Bytes, ghost n: nat) returns (z: nat)
    requires Fresh(data[..], s, n, i)
    ensures i <= z <= DigitRun(s, i) <= n && s[z] != ZERO && forall p :: i <= p < z ==> s[p] == ZERO
  {
    hide DigitRun, Fresh, Padded;
    ghost var d := data[..];
    z := i;
    FreshRun(d, s, n, i);
    while data[z] == ZERO
      invariant i <= z <= DigitRun(s, i) && data[z] == s[z]
      invariant forall p :: i <= p < z ==> s[p] == ZERO
      decreases n - z
    {
      RunStep(s, i, z);
      z := z + 1;
      FreshAt(d, s, n, i, z);
    }
  }

  /** The point is at i, a digit follows. */
  method ParseZeroFraction(data: array<byte>, i: nat, neg: bool, ghost s: Bytes, ghost n: TextSize)
    returns (err: Error, end: nat, x: Literal, ghost kept: nat)
    requires Fresh(data[..], s, n, i) && s[i] == DOT && IsDigit(s[i + 1])
    ensures Reads(Rest(s, neg, [0], i), err, end, x, kept, n)
  {
    hide DigitRun, DigitsIn, NatOf, ScanExponent, ScanFraction, Rest, Reads, KeptCount, FractionKept;
    FractionAt(s, i);
    ghost var run := DigitRun(s, i + 1);
    ghost var f := Run(DigitsIn(s, i + 1, run), run);
    kept := 0;
    var z := SkipZeros(data, i + 1, s, n);
    RunFrom(s, i + 1, z);
    if IsExpMark(data[z]) {
      MarkEndsRun(s, z);
      AllZeros(s, i + 1, z);
      var exp;
      err, end, exp := DoubleExp(data, z, 0, s, n);
      x := ZeroDouble(neg);
      ZeroReads(s, neg, [0], i, f, err, end, n);
      return;
    }
    err, end, x, kept := ParseZeroDigits(data, i, z, neg, s, n);
  }

  /** The digits from z on, behind the zeros after the point at i. */
  method ParseZeroDigits(data: array<byte>, i: nat, z: nat, neg: bool, ghost s: Bytes, ghost n: TextSize)
    returns (err: Error, end: nat, x: Literal, ghost kept: nat)
    requires Fresh(data[..], s, n, i) && s[i] == DOT && IsDigit(s[i + 1])
    requires i + 1 <= z <= DigitRun(s, i + 1) == DigitRun(s, z) <= n && s[z] != ZERO && !IsExpMark(s[z])
    requires forall p :: i + 1 <= p < z ==> s[p] == ZERO
    ensures Reads(Rest(s, neg, [0], i), err, end, x, kept, n)
  {
    hide DigitRun, DigitsIn, NatOf, ScanExponent, ScanFraction, Rest, Reads, KeptCount, FractionKept;
    FractionAt(s, i);
    ghost var run := DigitRun(s, i + 1);
    ghost var f := Run(DigitsIn(s, i + 1, run), run);
    EmptyValue();
    var man, m, fe, trunc := DoubleFract(data, z, 0, 0, [], s, n);
    assert [] + DigitsIn(s, z, z + m) == DigitsIn(s, z, z + m);
    kept := 1 + (z + m - (i + 1));
    ZeroKept(s, i + 1, z, z + m);
    KeptBounds(s, z, m, trunc);
    ZeroKeptCount(s, i + 1, z, run, m);
    var exp10: Int32 := 0 - (z + m - (i + 1));
    var exp;
    err, end, exp := Finish(data, fe, exp10, s, n);
    x := Scaled(neg, man, exp, trunc);
    assert ([0] + f.digits)[..|[0] + f.digits|] == [0] + f.digits;
    ScaledReads(s, neg, [0], i, f, kept, man, exp10, trunc, err, end, exp, n);
  }

  lemma {:induction false} LeadingRun(s: Bytes, i: nat, z: nat, run: nat)
    requires i <= z <= run == DigitRun(s, i) <= |s| && z < |s| && s[z] != ZERO
    requires forall p :: i <= p < z ==> s[p] == ZERO
    ensures LeadingZeros(DigitsIn(s, i, run)) == z - i
    decreases z - i
  {
    if i < z {
      LeadingRun(s, i + 1, z, run);
      assert DigitsIn(s, i, run)[1..] == DigitsIn(s, i + 1, run);
    }
  }

  lemma ZeroKeptCount(s: Bytes, i: nat, z: nat, run: nat, m: nat)
    requires i <= z <= run == DigitRun(s, i) <= |s| && z < |s| && s[z] != ZERO
    requires (forall p :: i <= p < z ==> s[p] == ZERO) && m == FractionKept(0, run - z)
    ensures KeptCount([0], DigitsIn(s, i, run)) == 1 + (z + m - i)
  {
    LeadingRun(s, i, z, run);
    hide DigitRun, LeadingZeros;
  }

  lemma MarkEndsRun(s: Bytes, i: nat)
    requires i < |s| && IsExpMark(s[i])
    ensures DigitRun(s, i) == i
  {}

  lemma AllZeros(s: Bytes, i: nat, j: nat)
    requires i <= j <= |s| && forall p :: i <= p < j ==> s[p] == ZERO
    ensures NatOf([0] + DigitsIn(s, i, j)) == 0
  {
    NatOfZero([0] + DigitsIn(s, i, j));
  }

  /** The mantissa kept from z on, where the first digit is not zero. */
  lemma KeptBounds(s: Bytes, z: nat, m: nat, trunc: bool)
    requires z < |s| && s[z] != ZERO && z + m <= DigitRun(s, z) <= |s| && m <= SAFE_DIGITS
    requires trunc ==> m >= LONGEST_DIGITS
    ensures NatOf(DigitsIn(s, z, z + m)) < MANTISSA_END && (m > 0 ==> NatOf(DigitsIn(s, z, z + m)) > 0)
    ensures trunc ==> NatOf(DigitsIn(s, z, z + m)) >= 0x10_0000_0000_0000
  {
    hide DigitRun, NatOf, DigitsIn;
    NineteenDigits(DigitsIn(s, z, z + m));
    if m > 0 {
      FirstDigit(s, z, m);
      LongMantissa(DigitsIn(s, z, z + m));
    }
  }

  lemma FirstDigit(s: Bytes, z: nat, m: nat)
    requires 0 < m && z + m <= DigitRun(s, z) <= |s| && s[z] != ZERO
    ensures DigitsIn(s, z, z + m)[0] > 0
  {
    hide DigitRun;
  }

  /** More than 19 digits: the first 19 are read again, the rest are counted. */
  method ReadLong(data: array<byte>, i: nat, ghost s: Bytes, ghost n: TextSize)
    returns (man: nat, exp10: Int32, end: nat)
    requires Fresh(data[..], s, n, i) && DigitRun(s, i) - i > SAFE_DIGITS
    ensures end == DigitRun(s, i) <= n && exp10 == end - i - SAFE_DIGITS
    ensures man == NatOf(DigitsIn(s, i, i + SAFE_DIGITS)) < U64_END
  {
    hide DigitRun, NatOf, DigitsIn, Fresh, Padded;
    ghost var d := data[..];
    man, exp10, end := 0, 0, i;
    var manNd := 0;
    FreshRun(d, s, n, i);
    RunStart(s, i);
    while IsDigit(data[end])
      invariant i <= end <= DigitRun(s, i) && manNd <= SAFE_DIGITS && end - i == manNd + exp10
      invariant man == NatOf(DigitsIn(s, i, i + manNd)) < U64_END && (exp10 > 0 ==> manNd == SAFE_DIGITS)
      invariant data[end] == s[end]
      decreases n - end
    {
      RunStep(s, i, end);
      if manNd < SAFE_DIGITS {
        NineteenDigits(DigitsIn(s, i, end + 1));
        man := man * 10 + (data[end] - ZERO);
        manNd := manNd + 1;
      } else {
        exp10 := exp10 + 1;
      }
      end := end + 1;
      FreshAt(d, s, n, i, end);
    }
    RunIsOver(s, i, end);
  }

  /** The digits of the integer part from a to i, the first `head` of which make the mantissa. */
  lemma HeadOf(s: Bytes, a: nat, i: nat, head: nat)
    requires a < i == DigitRun(s, a) <= |s| && s[a] != ZERO && head <= i - a
    ensures var w := DigitsIn(s, a, i);
            |w| == i - a && w[0] > 0 && w[..head] == DigitsIn(s, a, a + head) && w[..i - a] == w
  {
    hide DigitRun;
  }

  /** 20 digits: the last one may still fit. */
  lemma TwentyDigits(s: Bytes, a: nat, i: nat)
    requires i == a + 20 == DigitRun(s, a) && i <= |s| && s[a] != ZERO
    ensures NatOf(DigitsIn(s, a, i)) == 10 * NatOf(DigitsIn(s, a, a + 19)) + (s[i - 1] - ZERO) > I64_END
  {
    hide DigitRun, NatOf;
    RunStep(s, a, a + 19);
    LongMantissa(DigitsIn(s, a, i));
  }

  const U64_MAX := 0xFFFF_FFFF_FFFF_FFFF

  /** An integer literal from a to i whose first digits are the mantissa. */
  method ParseInteger(data: array<byte>, a: nat, i: nat, man: nat, exp10: Int32, neg: bool, ghost s: Bytes,
      ghost n: TextSize)
    returns (err: Error, end: nat, x: Literal, ghost kept: nat)
    requires a < i && Fresh(data[..], s, n, a) && i == DigitRun(s, a) <= n && s[a] != ZERO
    requires s[i] != DOT && !IsExpMark(s[i])
    requires exp10 >= 0
    requires if exp10 == 0 then i - a <= SAFE_DIGITS && man == NatOf(DigitsIn(s, a, i))
             else i - a == SAFE_DIGITS + exp10 && man == NatOf(DigitsIn(s, a, a + SAFE_DIGITS))
    ensures Reads(Rest(s, neg, DigitsIn(s, a, i), i), err, end, x, kept, n)
  {
    hide DigitRun, DigitsIn, NatOf, ScanExponent, ScanFraction, Rest, Reads;
    ghost var whole := DigitsIn(s, a, i);
    HeadOf(s, a, i, if exp10 == 0 then i - a else SAFE_DIGITS);
    NatOfZero(whole);
    err, end, kept := NoError, i, 0;
    if exp10 == 0 {
      NineteenDigits(whole);
      x := if !neg then Unsigned(man) else if man > I64_END then NegatedMantissa(man) else Negative(0 - man);
      IntegerReads(s, neg, whole, i, x, n);
      return;
    }
    if exp10 == 1 {
      TwentyDigits(s, a, i);
      var num := data[i - 1] - ZERO;
      if man < U64_MAX / 10 || (man == U64_MAX / 10 && num <= U64_MAX % 10) {
        x := if neg then NegatedMantissa(man * 10 + num) else Unsigned(man * 10 + num);
        IntegerReads(s, neg, whole, i, x, n);
        return;
      }
    } else {
      LongMantissa(whole);
    }
    LongMantissa(whole[..SAFE_DIGITS]);
    NineteenDigits(whole[..SAFE_DIGITS]);
    kept := SAFE_DIGITS;
    x := Scaled(neg, man, exp10, true);
    NoFraction(s, i);
    PlainExponent(s, i);
    assert whole + [] == whole;
    ScaledReads(s, neg, whole, i, Run([], i), kept, man, exp10, true, err, end, exp10, n);
  }

  lemma PlainExponent(s: Bytes, i: nat)
    requires i < |s| && !IsExpMark(s[i])
    ensures ScanExponent(s, i) == Some(ExponentRun(NoExponent, i)) && SignedExponent(NoExponent) == 0
  {}

  /** A literal whose integer part starts with another digit than zero, at a. */
  method ParseWhole(data: array<byte>, a: nat, neg: bool, ghost s: Bytes, ghost n: TextSize)
    returns (err: Error, end: nat, x: Literal, ghost kept: nat)
    requires Fresh(data[..], s, n, a) && s[a] != ZERO
    ensures match ScanWhole(s, a)
            case None => err != NoError
            case Some(w) => Reads(Rest(s, neg, w.digits, w.end), err, end, x, kept, n)
  {
    hide DigitRun, DigitsIn, NatOf, ScanExponent, ScanFraction, Rest, Reads;
    x, kept := Unsigned(0), 0;
    var man, i := Str2int(data, a, s, n);
    end := i;
    if i == a {
      return InvalidChar, end, x, kept;
    }
    var exp10: Int32 := 0;
    if i - a > SAFE_DIGITS {
      man, exp10, i := ReadLong(data, a, s, n);
    }
    ghost var whole := DigitsIn(s, a, i);
    var head := if exp10 == 0 then i - a else SAFE_DIGITS;
    HeadOf(s, a, i, head);
    NineteenDigits(whole[..head]);
    LongMantissa(whole[..head]);
    if data[i] == DOT {
      if !IsDigit(data[i + 1]) {
        BadFraction(s, neg, whole, i);
        FailReads(end, x, n);
        return InvalidChar, end, x, kept;
      }
      err, end, x, kept := ParseFraction(data, i, man, head, exp10, neg, whole, s, n);
    } else if IsExpMark(data[i]) {
      kept := head;
      NoFraction(s, i);
      assert whole + [] == whole;
      var exp;
      err, end, exp := DoubleExp(data, i, exp10, s, n);
      x := Scaled(neg, man, exp, false);
      ScaledReads(s, neg, whole, i, Run([], i), kept, man, exp10, false, err, end, exp, n);
    } else {
      err, end, x, kept := ParseInteger(data, a, i, man, exp10, neg, s, n);
    }
  }

  /** The point is at i, a digit follows; the mantissa spells the first `head` digits of `whole`. */
  method ParseFraction(data: array<byte>, i: nat, man: nat, head: nat, exp10: Int32, neg: bool, ghost whole: seq<digit>,
      ghost s: Bytes, ghost n: TextSize) returns (err: Error, end: nat, x: Literal, ghost kept: nat)
    requires Fresh(data[..], s, n, i) && s[i] == DOT && IsDigit(s[i + 1])
    requires whole != [] && whole[0] > 0 && 0 < head <= SAFE_DIGITS && 0 <= exp10 == |whole| - head <= i
    requires man == NatOf(whole[..head]) && (exp10 > 0 ==> head == SAFE_DIGITS)
    ensures Reads(Rest(s, neg, whole, i), err, end, x, kept, n)
  {
    hide DigitRun, DigitsIn, NatOf, ScanExponent, ScanFraction, Rest, Reads;
    FractionAt(s, i);
    ghost var run := DigitRun(s, i + 1);
    ghost var f := Run(DigitsIn(s, i + 1, run), run);
    ghost var prefix := whole[..head];
    var mantissa, m, fe, trunc := DoubleFract(data, i + 1, man, head, prefix, s, n);
    ghost var digits := prefix + DigitsIn(s, i + 1, i + 1 + m);
    kept := head + m;
    assert exp10 > 0 ==> m == 0 && trunc;
    KeptDigits(s, i + 1, m, whole, head);
    NineteenDigits(digits);
    LongMantissa(digits);
    var scale: Int32 := exp10 - m;
    var exp;
    err, end, exp := Finish(data, fe, scale, s, n);
    x := Scaled(neg, mantissa, exp, trunc);
    ScaledReads(s, neg, whole, i, f, kept, mantissa, scale, trunc, err, end, exp, n);
  }

  lemma KeptDigits(s: Bytes, i: nat, m: nat, whole: seq<digit>, head: nat)
    requires i + m <= DigitRun(s, i) <= |s| && head <= |whole| && (head < |whole| ==> m == 0)
    ensures (whole + DigitsIn(s, i, DigitRun(s, i)))[..head + m] == whole[..head] + DigitsIn(s, i, i + m)
  {
    hide DigitRun;
  }

  /** The parser's number reader: on every text it finds the literal the grammar finds. */
  method ParseNumber(data: array<byte>, start: nat, ghost s: Bytes, ghost n: TextSize)
    returns (err: Error, end: nat, x: Literal, ghost kept: nat)
    requires Fresh(data[..], s, n, start) && start < n
    ensures Reads(ScanNumber(s, start), err, end, x, kept, n)
  {
    hide ScanWhole, ScanFraction, ScanExponent, Reads;
    var neg := data[start] == MINUS;
    var i := if neg then start + 1 else start;
    if data[i] == ZERO {
      err, end, x, kept := ParseZero(data, i + 1, neg, s, n);
      LoneZero(s, i);
    } else {
      err, end, x, kept := ParseWhole(data, i, neg, s, n);
      if err != NoError && ScanWhole(s, i) == None {
        NoNumber(err, end, x, kept, n);
      }
    }
  }

  lemma LoneZero(s: Bytes, i: nat)
    requires i < |s| && s[i] == ZERO
    ensures ScanWhole(s, i) == Some(Run([0], i + 1))
  {}

  lemma NoNumber(err: Error, end: nat, x: Literal, kept: nat, n: nat)
    requires err != NoError
    ensures Reads(None, err, end, x, kept, n)
  {}
}
