/** From a scanned literal to the nearest double: the order in which the parser tries its four
    conversions. */
module NumberDouble {
  import opened Options
  import opened Powers
  import opened Digits
  import opened Binary64
  import opened Json
  import opened Lexer
  import opened Sentinel
  import opened EiselLemire
  import opened NormalFast
  import opened FloatingFast
  import opened Unescape
  import opened NumberScan
  import opened NumberValue
  import opened Tables
  import opened DecimalText
  import opened FarExponent
  import Decimals
  import DecimalToDouble

  function Sign(neg: bool): int { if neg then -1 else 1 }

  /** The bits are those of the double nearest to v, possibly infinity, with a sign. */
  ghost predicate NearestBits(v: real, bits: nat, neg: bool) {
    exists b: nat :: bits == Signed(b, Sign(neg)) && Nearest(v, b)
  }

  /** The literals the conversions are right for.  Left out are 20 or more integer digits directly followed by
      an exponent when a digit behind the nineteenth is not zero, integer parts longer than 800 digits, and
      exponents of 100000 and more behind more than 9000 fraction digits. */
  predicate Plain(num: Number) {
    NothingLost(num) && |num.whole| <= Decimals.MAX_DNUM && ExponentEnough(num)
  }

  /** Of these, less the zeros whose conversion is not defined. */
  predicate Convertible(num: Number) { ZeroSafe(num) && (Plain(num) || AllZero(num.whole + num.frac)) }

  /** What a conversion answers for a value: the nearest double, and an error exactly when that is infinity. */
  ghost predicate AnswersFor(v: real, neg: bool, err: Error, bits: nat) {
    NearestBits(v, bits, neg) && (err == Infinity <==> Nearest(v, INFINITY)) && (err == Infinity || err == NoError)
  }

  ghost predicate Answers(num: Number, err: Error, bits: nat) { AnswersFor(Magnitude(num), num.neg, err, bits) }

  /** What the fallback reads when `rest` bytes are left from the literal on: its length is an `int`, and a
      negative one ends the reading before the first digit. */
  function Fallback(num: Number, rest: nat): real { if rest < INT_END then SlowMagnitude(num) else 0.0 }

  /** What is rounded: all that the scanner saw when some conversion before the fallback answers, else what the
      fallback reads. */
  ghost function Answer(num: Number, rest: nat): (r: real)
    ensures r >= 0.0
  {
    if Tabled(num) then Seen(num) else Fallback(num, rest)
  }

  /** The fallback, from the text of the literal. */
  method AtofNative(data: array<byte>, start: nat, len: nat, ghost s: Bytes, ghost num: Number, ghost end: nat)
    returns (bits: nat)
    requires Fresh(data[..], s, len, start) && Readable(s, len, start, num, end)
    requires len - start < 2 * INT_END && Sized(end - start)
    ensures Ended(s, end) || len - start >= INT_END ==> NearestBits(Fallback(num, len - start), bits, num.neg)
  {
    hide Fresh, Readable, SlowMagnitude, Nearest, Ended;
    LiteralInside(data[..], s, len, start, num, end);
    var d := new Decimals.Decimal();
    ghost var x := SetDecimal(d, data, start, Narrow(len - start), len, s, num, end);
    bits := DecimalToDouble.DecimalToF64(d, x);
    ghost var b: nat :| bits == b + (if num.neg then TOP else 0) && Nearest(x, b);
    assert bits == Signed(b, Sign(num.neg));
  }

  lemma LiteralInside(data: Bytes, s: Bytes, n: nat, start: nat, num: Number, end: nat)
    requires Fresh(data, s, n, start) && Readable(s, n, start, num, end)
    ensures start < n
  {}

  /** Truncated literals are certain when both ends of their bracket round alike. */
  method ParseFloatEiselLemire64(x: Literal, data: array<byte>, start: nat, len: nat, ghost s: Bytes,
      ghost num: Number, ghost kept: nat, ghost end: nat) returns (err: Error, bits: nat)
    requires x.Scaled? && x.man > 0 && Describes(x, num, kept)
    requires Fresh(data[..], s, len, start) && Readable(s, len, start, num, end)
    requires start < len && len - start < 2 * INT_END && Sized(end - start)
    requires !ByOperation(x.man, x.exp10) && (x.trunc || !ByProduct(x.man, x.exp10))
    ensures Ended(s, end) || len - start >= INT_END || Tabled(num) ==> Converts(num, len - start, err, bits)
  {
    hide Fresh, Readable, Seen, Nearest, Exact, SlowMagnitude, Fallback, Ended, AnswersFor, ByOperation, ByProduct,
      RoundsTo, Decides;
    var sgn := Sign(x.neg);
    DescribedIs(x, num, kept);
    SafeMantissa(x, num, kept);
    var ok, val := AtofEiselLemire64(x.man, x.exp10, sgn);
    if ok {
      if !x.trunc {
        ExactRounds(x, num, kept, val);
        return NoError, val;
      }
      var up, valUp := AtofEiselLemire64(x.man + 1, x.exp10, sgn);
      if up {
        SameRounds(Exact(x.man, x.exp10), Exact(x.man + 1, x.exp10), val, valUp, sgn);
      }
      if up && valUp == val {
        BracketRounds(x, num, kept, val);
        return NoError, val;
      }
    }
    assert !Tabled(num);
    bits := AtofNative(data, start, len, s, num, end);
    err := if bits % TOP == INFINITY then Infinity else NoError;
    if Ended(s, end) || len - start >= INT_END {
      InfinityBits(Fallback(num, len - start), bits, num.neg);
    }
  }

  /** Equal bits are equal doubles. */
  lemma SameRounds(u: real, v: real, bits: nat, more: nat, sgn: int)
    requires RoundsTo(u, bits, sgn) && RoundsTo(v, more, sgn)
    ensures bits == more <==> SameDouble(u, v)
  {
    hide Nearest;
    var b: nat :| P52 <= b < INFINITY && bits == Signed(b, sgn) && Nearest(u, b);
    var c: nat :| P52 <= c < INFINITY && more == Signed(c, sgn) && Nearest(v, c);
    if bits == more {
      SameSigned(b, c, sgn);
    }
    if SameDouble(u, v) {
      var d: nat :| Nearest(u, d) && Nearest(v, d);
      NearestUnique(u, b, d);
      NearestUnique(v, c, d);
    }
  }

  /** The answer is the nearest double of one value, and an error exactly when that is infinity. */
  ghost predicate Converts(num: Number, rest: nat, err: Error, bits: nat) {
    AnswersFor(Answer(num, rest), num.neg, err, bits)
  }

  lemma SafeMantissa(x: Literal, num: Number, kept: nat)
    requires x.Scaled? && Describes(x, num, kept)
    ensures x.man + 1 < W64 && x.neg == num.neg
  {}

  /** A certain conversion of a mantissa that is all that was seen. */
  lemma ExactRounds(x: Literal, num: Number, kept: nat, val: nat)
    requires x.Scaled? && Describes(x, num, kept) && !x.trunc
    requires RoundsTo(Exact(x.man, x.exp10), val, Sign(x.neg))
    ensures AnswersFor(Seen(num), num.neg, NoError, val)
  {
    hide Nearest, Exact, Seen;
    SeenBracket(x, num, kept);
    var b: nat :| P52 <= b < INFINITY && val == Signed(b, Sign(x.neg)) && Nearest(Exact(x.man, x.exp10), b);
    FiniteOnly(Seen(num), b);
  }

  lemma FiniteOnly(v: real, b: nat)
    requires Nearest(v, b) && b < INFINITY
    ensures !Nearest(v, INFINITY)
  {
    hide Nearest;
    if Nearest(v, INFINITY) {
      NearestUnique(v, b, INFINITY);
    }
  }

  lemma SameSigned(b: nat, c: nat, sgn: int)
    requires Signed(b, sgn) == Signed(c, sgn)
    ensures b == c
  {}

  /** Both ends of the bracket round to the same double: so does everything between. */
  lemma BracketRounds(x: Literal, num: Number, kept: nat, val: nat)
    requires x.Scaled? && Describes(x, num, kept)
    requires RoundsTo(Exact(x.man, x.exp10), val, Sign(x.neg))
    requires RoundsTo(Exact(x.man + 1, x.exp10), val, Sign(x.neg))
    ensures AnswersFor(Seen(num), num.neg, NoError, val)
  {
    hide Nearest, Exact, Seen;
    var sgn := Sign(x.neg);
    SeenBracket(x, num, kept);
    var b: nat :| P52 <= b < INFINITY && val == Signed(b, sgn) && Nearest(Exact(x.man, x.exp10), b);
    var c: nat :| P52 <= c < INFINITY && val == Signed(c, sgn) && Nearest(Exact(x.man + 1, x.exp10), c);
    SameSigned(b, c, sgn);
    NearestBetween(Exact(x.man, x.exp10), Seen(num), Exact(x.man + 1, x.exp10), b);
    FiniteOnly(Seen(num), b);
  }

  /** Shifting out the sign leaves the infinity pattern exactly when the value rounds there. */
  lemma InfinityBits(v: real, bits: nat, neg: bool)
    requires NearestBits(v, bits, neg)
    ensures AnswersFor(v, neg, if bits % TOP == INFINITY then Infinity else NoError, bits)
  {
    var b: nat :| bits == Signed(b, Sign(neg)) && Nearest(v, b);
    PatternRange(v, b);
    hide Nearest;
    assert bits % TOP == b;
    if Nearest(v, INFINITY) {
      NearestUnique(v, b, INFINITY);
    }
  }

  lemma PatternRange(v: real, b: nat)
    requires Nearest(v, b)
    ensures b <= INFINITY < TOP
  {}

  /** A mantissa below 2^52 is all that was seen. */
  lemma FastRounds(x: Literal, num: Number, kept: nat, b: nat)
    requires x.Scaled? && Describes(x, num, kept) && x.man < P52
    requires Nearest(Exact(x.man, x.exp10), b) && b < INFINITY
    ensures AnswersFor(Seen(num), num.neg, NoError, Signed(b, Sign(x.neg)))
  {
    hide Nearest, Exact, Seen, NatOf, SignedExponent;
    assert !x.trunc && x.neg == num.neg;
    SeenBracket(x, num, kept);
    FiniteOnly(Seen(num), b);
  }

  /** double_fast: from the scanned mantissa and exponent to bits. */
  method ToDouble(round: Rounding, x: Literal, data: array<byte>, start: nat, len: nat, ghost s: Bytes,
      ghost num: Number, ghost kept: nat, ghost end: nat) returns (err: Error, bits: nat)
    requires x.Scaled? && Describes(x, num, kept) && ZeroSafe(num)
    requires Fresh(data[..], s, len, start) && Readable(s, len, start, num, end)
    requires start < len && len - start < 2 * INT_END && Sized(end - start)
    ensures Ended(s, end) || len - start >= INT_END || Tabled(num) ==> Converts(num, len - start, err, bits)
    ensures Plain(num) && (Tabled(num) || (Ended(s, end) && len - start < INT_END)) ==> Answers(num, err, bits)
  {
    hide Fresh, Readable, Plain, Ended, Converts, Tabled;
    err, bits := Convert(round, x, data, start, len, s, num, kept, end);
    if Plain(num) && (Tabled(num) || (Ended(s, end) && len - start < INT_END)) {
      PlainConverts(num, len - start, err, bits);
    }
  }

  method Convert(round: Rounding, x: Literal, data: array<byte>, start: nat, len: nat, ghost s: Bytes,
      ghost num: Number, ghost kept: nat, ghost end: nat) returns (err: Error, bits: nat)
    requires x.Scaled? && Describes(x, num, kept) && ZeroSafe(num)
    requires Fresh(data[..], s, len, start) && Readable(s, len, start, num, end)
    requires start < len && len - start < 2 * INT_END && Sized(end - start)
    ensures Ended(s, end) || len - start >= INT_END || Tabled(num) ==> Converts(num, len - start, err, bits)
  {
    hide Fresh, Readable, Seen, Nearest, Exact, ZeroSafe, Ended, Fallback, AnswersFor, Doubtful, Decides, RoundsTo;
    var sgn := Sign(x.neg);
    DescribedIs(x, num, kept);
    ZeroMantissa(x, num, kept);
    if x.man < P52 && -22 <= x.exp10 <= 37 {
      var d := ParseFloatingFast(round, x.man, x.exp10);
      if d.Some? {
        bits := Signed(d.value, sgn);
        FastRounds(x, num, kept, d.value);
        return NoError, bits;
      }
    }
    SafeMantissa(x, num, kept);
    if !x.trunc && -307 < x.exp10 < 288 {
      var ok, raw := ParseFloatingNormalFast(x.exp10, x.man, sgn);
      if ok {
        ExactRounds(x, num, kept, raw);
        return NoError, raw;
      }
    }
    err, bits := ParseFloatEiselLemire64(x, data, start, len, s, num, kept, end);
  }

  /** Answered before the fallback or within its reach, a plain literal is read right. */
  lemma PlainConverts(num: Number, rest: nat, err: Error, bits: nat)
    requires Plain(num) && (Tabled(num) || rest < INT_END) && Converts(num, rest, err, bits)
    ensures Answers(num, err, bits)
  {
    hide Seen, SlowMagnitude, ReadMagnitude, Magnitude, Nearest, ExponentEnough, NothingLost, Tabled;
    LostOrSeen(num);
    SlowIsRead(num);
    var v := ReadMagnitude(num);
    assert AnswersFor(v, num.neg, err, bits);
    var b: nat :| bits == Signed(b, Sign(num.neg)) && Nearest(v, b);
    ReadIsEnough(num, b);
    ReadIsEnough(num, INFINITY);
  }

  lemma SlowIsRead(num: Number)
    requires |num.whole| <= Decimals.MAX_DNUM
    ensures SlowMagnitude(num) == ReadMagnitude(num)
  {
    hide Frac, Times, Ten, SignedExponent;
  }

  // ---- every literal that is no 64-bit integer ----

  /** The nearest double, unless that is infinity. */
  ghost function RoundedTo(v: real, neg: bool): Option<nat>
    requires v >= 0.0
  {
    var b := NearestOf(v);
    if b == INFINITY then None else Some(Signed(b, Sign(neg)))
  }

  ghost function NearestDouble(num: Number): Option<nat> { RoundedTo(Magnitude(num), num.neg) }

  /** The nearest double of what is rounded, at a distance that every text the parser takes allows. */
  ghost function ReadDouble(num: Number): Option<nat> { RoundedTo(Answer(num, 0), num.neg) }

  /** On the literals the conversions are right for that is the nearest double of the literal. */
  lemma ReadIsNearest(num: Number)
    requires Plain(num)
    ensures ReadDouble(num) == NearestDouble(num)
  {
    hide Seen, SlowMagnitude, ReadMagnitude, Magnitude, Nearest, ExponentEnough, NothingLost;
    LostOrSeen(num);
    SlowIsRead(num);
    var b := NearestOf(ReadMagnitude(num));
    ReadIsEnough(num, b);
    NearestUnique(Magnitude(num), b, NearestOf(Magnitude(num)));
  }

  /** What a literal's text is converted to.  `odd` stands for the outcome on the zeros for which the
      conversions are not defined, and on texts that are no literals. */
  ghost function Converted(odd: Conversion, text: Bytes): Option<nat> {
    match ScanNumber(text + [COMMA], 0)
    case None => odd(text)
    case Some(r) =>
      if Convertible(r.n) then NearestDouble(r.n) else if ZeroSafe(r.n) then ReadDouble(r.n) else odd(text)
  }

  ghost function Ieee(odd: Conversion): Conversion { text => Converted(odd, text) }

  lemma OwnText(num: Number)
    requires ValidNumber(num)
    ensures ScanNumber(NumberText(num) + [COMMA], 0) == Some(NumberRun(num, |NumberText(num)|))
  {
    hide NumberText, ValidNumber, ScanNumber;
    var t := NumberText(num);
    assert (t + [COMMA])[0..0 + |t|] == t;
    assert Peek(t + [COMMA], |t|) == COMMA;
    NumberComplete(t + [COMMA], 0, num);
  }

  lemma ConvertedIs(odd: Conversion, num: Number)
    requires ValidNumber(num)
    ensures Ieee(odd)(NumberText(num)) ==
            if Convertible(num) then NearestDouble(num)
            else if ZeroSafe(num) then ReadDouble(num) else odd(NumberText(num))
  {
    hide NumberText, ValidNumber, ScanNumber, Convertible, NearestDouble, ReadDouble, ZeroSafe;
    OwnText(num);
  }

  /** An answer for a value is its nearest double. */
  lemma AnswerIs(v: real, neg: bool, err: Error, bits: nat)
    requires v >= 0.0 && AnswersFor(v, neg, err, bits)
    ensures RoundedTo(v, neg) == if err == Infinity then None else Some(bits)
  {
    hide Nearest;
    var b: nat :| bits == Signed(b, Sign(neg)) && Nearest(v, b);
    NearestUnique(v, b, NearestOf(v));
    if b == INFINITY || Nearest(v, INFINITY) {
      NearestUnique(v, b, INFINITY);
    }
  }

  lemma ScaledIsPlain(x: Literal, num: Number, kept: nat)
    requires x.Scaled? && Describes(x, num, kept) && ValidNumber(num) && Convertible(num)
    ensures Plain(num)
  {
    hide SignedExponent, NatOf;
    var d := num.whole + num.frac;
    if AllZero(d) {
      assert d[0] == num.whole[0];
      ZerosFirst(d, kept);
      NatOfZero(d[..kept]);
    }
  }

  lemma ScaledReadable(x: Literal, num: Number, kept: nat)
    requires x.Scaled? && Describes(x, num, kept) && ValidNumber(num)
    ensures IsInteger(num) ==> num.whole != [] && num.whole[0] != 0
  {
    hide SignedExponent, NatOf;
    if |num.whole| == 1 {
      LoneDigit(num.whole);
    }
  }

  lemma LoneDigit(w: seq<digit>)
    requires |w| == 1
    ensures NatOf(w) == w[0]
  {
    assert w[..0] == [];
  }

  /** Zeros with an exponent. */
  lemma ZeroAnswers(x: Literal, num: Number, kept: nat)
    requires x.ZeroDouble? && Describes(x, num, kept)
    ensures Convertible(num) && NearestDouble(num) == Some(Signed(0, Sign(x.neg)))
  {
    hide Magnitude, Nearest, Plain;
    NatOfZero(num.whole + num.frac);
    ZeroMagnitude(x, num, kept);
    assert Nearest(0.0, 0) by { NothingNearest(); }
    FiniteOnly(0.0, 0);
    AnswerIs(0.0, num.neg, NoError, Signed(0, Sign(x.neg)));
  }

  lemma NothingNearest()
    ensures Nearest(0.0, 0)
  {
    DecimalToDouble.TinyRounds(0.0);
  }

  /** Integers between -2^64 and -2^63. */
  lemma NegatedAnswers(round: Rounding, x: Literal, num: Number, kept: nat)
    requires x.NegatedMantissa? && Describes(x, num, kept) && ValidNumber(num)
    ensures Convertible(num) && NearestDouble(num) == Some(Signed(round(x.man as real), -1))
  {
    hide Magnitude, Nearest, NatOf;
    IntegersExact(x, num, kept);
    NegatedPlain(num);
    var b := round(x.man as real);
    assert Nearest(x.man as real, b);
    WordIsFinite(x.man, b);
    FiniteOnly(x.man as real, b);
    AnswerIs(x.man as real, num.neg, NoError, Signed(b, -1));
  }

  lemma NegatedPlain(num: Number)
    requires ValidNumber(num) && IsInteger(num) && 0 < NatOf(num.whole) < U64_END
    ensures Convertible(num)
  {
    hide NatOf;
    assert num.whole + num.frac == num.whole;
    if |num.whole| > 1 {
      LongMantissa(num.whole);
    }
  }

  /** No 64-bit integer rounds to infinity. */
  lemma WordIsFinite(man: nat, b: nat)
    requires man < W64 && Nearest(man as real, b)
    ensures b < INFINITY
  {
    hide Nearest, Two;
    DecimalToDouble.TwoFiftyThree();
    TwoMono(53, 106);
    TwoAdd(53, 53, 106);
    TwoMono(106, 1000);
    assert W64 as real <= Times(Two(53), Two(53));
    SmallIsFinite(man as real, b);
  }

  /** The conversion of a literal that is no 64-bit integer, as the parser ends it. */
  method DoubleValue(round: Rounding, odd: Conversion, x: Literal, data: array<byte>, start: nat, end: nat,
      len: TextSize, ghost s: Bytes, ghost num: Number, ghost kept: nat) returns (bits: Option<nat>)
    requires !x.Unsigned? && !x.Negative? && Describes(x, num, kept)
    requires Fresh(data[..], s, len, start) && start < len && ScanNumber(s, start) == Some(NumberRun(num, end))
    requires start <= end <= data.Length && data[start..end] == NumberText(num)
    ensures Ended(s, end) ==> bits == Ieee(odd)(NumberText(num))
  {
    hide Fresh, Describes, Ended, ScanNumber, NumberText, Convertible, Plain, Ieee, NearestDouble, ReadDouble,
      ValidNumber, ZeroSafe, Converts, Readable;
    NumberSound(s, start);
    ConvertedIs(odd, num);
    match x {
      case ZeroDouble(neg) =>
        ZeroAnswers(x, num, kept);
        bits := Some(Signed(0, Sign(neg)));
      case NegatedMantissa(man) =>
        NegatedAnswers(round, x, num, kept);
        bits := Some(Signed(round(man as real), -1));
      case Scaled(neg, man, exp10, trunc) =>
        ZeroMantissa(x, num, kept);
        UnsafeIsOdd(num);
        if man == 0 && exp10 < -22 {
          return odd(data[start..end]); // undefined in the original: the leading zeros of zero are counted
        }
        ScaledReadable(x, num, kept);
        IsReadable(s, len, start, num, end, data[..]);
        PartSized(len, start, end);
        var err, value := ToDouble(round, x, data, start, len, s, num, kept, end);
        bits := if err == Infinity then None else Some(value);
        if Ended(s, end) {
          ConvertsIs(num, len - start, err, value);
          if Convertible(num) {
            ScaledIsPlain(x, num, kept);
            ReadIsNearest(num);
          }
        }
    }
  }

  lemma ConvertsIs(num: Number, rest: nat, err: Error, bits: nat)
    requires Converts(num, rest, err, bits) && rest < INT_END
    ensures ReadDouble(num) == if err == Infinity then None else Some(bits)
  {
    hide Nearest, Seen, SlowMagnitude, Tabled;
    AnswerIs(Answer(num, rest), num.neg, err, bits);
  }

  lemma UnsafeIsOdd(num: Number)
    ensures !ZeroSafe(num) ==> !Convertible(num)
  {}

  lemma PartSized(len: TextSize, start: nat, end: nat)
    requires end <= len
    ensures len - start < INT_END && Sized(end - start)
  {}

  lemma IsReadable(s: Bytes, n: nat, start: nat, num: Number, end: nat, data: Bytes)
    requires Fresh(data, s, n, start) && start < n && ScanNumber(s, start) == Some(NumberRun(num, end))
    requires IsInteger(num) ==> num.whole != [] && num.whole[0] != 0
    ensures Readable(s, n, start, num, end) && end <= n
  {
    NumberInside(s, n, start);
  }
}
