/** Where the conversion of a literal ends: what a length that is no `int` does to the fallback, and what its
    800 places do to longer integers. */
module NumberLimits {
  import opened Options
  import opened Powers
  import opened Digits
  import opened Binary64
  import opened Json
  import opened Pow10Table
  import opened EiselLemire
  import opened FloatingFast
  import opened Unescape
  import opened NumberScan
  import opened NumberValue
  import opened Tables
  import opened DecimalText
  import opened FarExponent
  import opened NumberDouble
  import DecimalToDouble

  /** With 2^31 bytes or more from the literal on the fallback gives zero.  So a plain literal is read right if
      and only if a conversion before it answers, fewer bytes are left, or the literal rounds to zero. */
  lemma LateExact(num: Number, rest: nat, err: Error, bits: nat)
    requires NumberDouble.Plain(num) && Converts(num, rest, err, bits)
    ensures Answers(num, err, bits) <==> Tabled(num) || rest < INT_END || Nearest(Magnitude(num), 0)
    ensures !Tabled(num) && rest >= INT_END ==> err == NoError && bits == Signed(0, Sign(num.neg))
  {
    hide Nearest, SlowMagnitude, ReadMagnitude, Magnitude, ExponentEnough, NothingLost, Tabled, Seen;
    if Tabled(num) || rest < INT_END {
      PlainConverts(num, rest, err, bits);
    } else {
      var b: nat :| bits == Signed(b, Sign(num.neg)) && Nearest(0.0, b);
      ZeroRounds(b);
      FiniteOnly(0.0, b);
      if Nearest(Magnitude(num), 0) {
        FiniteOnly(Magnitude(num), 0);
      }
      if Answers(num, err, bits) {
        var c: nat :| bits == Signed(c, Sign(num.neg)) && Nearest(Magnitude(num), c);
        SameSigned(b, c, Sign(num.neg));
      }
    }
  }

  /** Subnormal and infinite doubles come from the fallback only. */
  lemma BeyondExact(x: Literal, num: Number, kept: nat, rest: nat, err: Error, bits: nat)
    requires x.Scaled? && Describes(x, num, kept)
    requires NumberDouble.Plain(num) && BeyondTables(Magnitude(num)) && Converts(num, rest, err, bits)
    ensures Answers(num, err, bits) <==> rest < INT_END
    ensures rest >= INT_END ==> err == NoError && bits == Signed(0, Sign(num.neg))
  {
    hide Nearest, Seen, Fallback, ReadMagnitude, Magnitude, ExponentEnough, NothingLost, AnswersFor, Describes, Tabled;
    LostOrSeen(num);
    var b: nat :| Nearest(Magnitude(num), b) && (0 < b < P52 || b == INFINITY);
    ReadIsEnough(num, b);
    NotTabled(x, num, kept);
    LateExact(num, rest, err, bits);
    if Nearest(Magnitude(num), 0) {
      NearestUnique(Magnitude(num), 0, b);
    }
  }

  lemma NotTabled(x: Literal, num: Number, kept: nat)
    requires x.Scaled? && Describes(x, num, kept) && BeyondTables(Seen(num))
    ensures !Tabled(num)
  {
    hide Tabled, BeyondTables, Seen, Describes;
    if Tabled(num) {
      TabledIsNormal(x, num, kept);
    }
  }

  // ---- 5e-324, the least double ----

  const TINY: Bytes := [0x35, 0x65, 0x2d, 0x33, 0x32, 0x34]

  function Tiny(): Number { Number(false, [5], [], Exponent(0x65, [MINUS], [3, 2, 4])) }

  lemma ThreeDigits(a: digit, b: digit, c: digit)
    ensures NatOf([a, b, c]) == 100 * a + 10 * b + c
  {
    var three: seq<digit>, two: seq<digit>, one: seq<digit> := [a, b, c], [a, b], [a];
    assert three[..2] == two && two[..1] == one;
    LoneDigit(one);
  }

  lemma TinyScale()
    ensures NatOf([5]) == 5 && NatOf([3, 2, 4]) == 324
  {
    ThreeDigits(3, 2, 4);
    var d: seq<digit> := [5];
    LoneDigit(d);
  }

  lemma TinyText()
    ensures ValidNumber(Tiny()) && NumberText(Tiny()) == TINY
  {}

  /** Read with 2^31 bytes behind it, the literal is converted to 0.0 without an error. */
  lemma LateTiny(rest: nat, err: Error, bits: nat) returns (x: Literal, kept: nat)
    requires INT_END <= rest && Converts(Tiny(), rest, err, bits)
    ensures Describes(x, Tiny(), kept) && x.Scaled? && NumberDouble.Plain(Tiny())
    ensures Nearest(Magnitude(Tiny()), 1) && err == NoError && bits == 0
  {
    TinyScale();
    kept := 1;
    x := Scaled(false, 5, -324, false);
    TinyDescribed();
    TinyPlain();
    TinyNearest();
    hide Nearest, Describes, NumberDouble.Plain, Converts, Magnitude;
    assert BeyondTables(Magnitude(Tiny()));
    BeyondExact(x, Tiny(), kept, rest, err, bits);
  }

  lemma TinyDescribed()
    ensures Describes(Scaled(false, 5, -324, false), Tiny(), 1)
  {
    TinyScale();
    ExponentRead(Tiny());
    var d: seq<digit> := [5];
    assert d + [] == d && d[..1] == d;
    hide NatOf, SignedExponent;
  }

  lemma TinyPlain()
    ensures NumberDouble.Plain(Tiny())
  {
    TinyScale();
    hide NatOf;
  }

  /** 5 * 10^-324 is between a half and one and a half of 2^-1074. */
  lemma TinyNearest()
    ensures Nearest(Magnitude(Tiny()), 1)
  {
    TinyDescribed();
    TinyScale();
    TinyPlain();
    hide Nearest, Exact, Magnitude, NatOf, Two, Ten, Times;
    ScannedBracket(Scaled(false, 5, -324, false), Tiny(), 1);
    var v := Magnitude(Tiny());
    var e: int := -324;
    ExactValue(5, e);
    assert v == Times(5.0, Ten(e));
    Log2TenExact(e);
    assert Log2Ten(e) == -1077;
    var x := Times(v, Two(1074));
    var u := Times(Ten(e), Two(1074));
    TimesAssoc(5.0, Ten(e), Two(1074));
    TimesOrder(Two(-1077), Ten(e), Two(1074));
    TimesOrder(Ten(e), Two(-1076), Two(1074));
    TwoAdd(-1077, 1074, -3);
    TwoAdd(-1076, 1074, -2);
    Eighth();
    FiveTimes(u);
    TimesAssoc(v, Two(1074), Two(-1074));
    TwoAdd(1074, -1074, 0);
    TwoBase();
    TimesUnit(v);
    var one: nat := 1;
    RoundSignificand(v, x, one, one);
  }

  lemma Eighth()
    ensures Two(-3) == 0.125 && Two(-2) == 0.25
  {}

  lemma FiveTimes(u: real)
    ensures Times(5.0, u) == 5.0 * u
  {}

  // ---- a one and 899 zeros ----

  function Zeros(n: nat): (d: seq<digit>)
    ensures |d| == n && AllZero(d)
  {
    seq(n, _ => 0)
  }

  function LongOne(): Number { Number(false, [1] + Zeros(899), [], Exponent(0x65, [MINUS], [5, 9, 0])) }

  /** 10^309 in 900 digits with the exponent -590: out of range, but read as 10^209. */
  lemma LongInteger(rest: nat, err: Error, bits: nat) returns (x: Literal, kept: nat)
    requires rest < INT_END && Converts(LongOne(), rest, err, bits)
    ensures ValidNumber(LongOne()) && Describes(x, LongOne(), kept) && x.Scaled?
    ensures Magnitude(LongOne()) == Ten(309) && SlowMagnitude(LongOne()) == Ten(209)
    ensures Nearest(Magnitude(LongOne()), INFINITY) && err == NoError && NearestBits(Ten(209), bits, false)
  {
    hide Nearest, Magnitude, SlowMagnitude, Seen, ReadMagnitude, Describes, Ten, Two, LongOne, Tabled;
    x, kept := LongDescribed();
    LongValues();
    LongBeyond();
    NotTabled(x, LongOne(), kept);
    assert NearestBits(Ten(209), bits, false);
    var b: nat :| bits == Signed(b, Sign(false)) && Nearest(Ten(209), b);
    LongFinite(b);
    FiniteOnly(Ten(209), b);
  }

  lemma LongDescribed() returns (x: Literal, kept: nat)
    ensures ValidNumber(LongOne()) && Describes(x, LongOne(), kept) && x.Scaled? && NothingLost(LongOne())
    ensures SignedExponent(LongOne().exp) == Exponent10(LongOne().exp) == -590 && |LongOne().whole| == 900
    ensures SmallExponent(LongOne()) && !LongOne().neg
  {
    ThreeDigits(5, 9, 0);
    var n := LongOne();
    ExponentRead(n);
    kept := SAFE_DIGITS;
    var d := n.whole;
    assert d + [] == d;
    assert d[0] == 1;
    NineteenDigits(d[..kept]);
    LongMantissa(d[..kept]);
    x := Scaled(false, NatOf(d[..kept]), 291, false);
    hide NatOf, SignedExponent;
  }

  lemma LongValues()
    ensures Magnitude(LongOne()) == Ten(309) == Seen(LongOne()) && SlowMagnitude(LongOne()) == Ten(209)
  {
    hide Frac, Times, Ten, SignedExponent, Exponent10, NatOf, NothingLost, Zeros;
    var n := LongOne();
    var x, kept := LongDescribed();
    LostOrSeen(n);
    var d := n.whole + n.frac;
    assert d == [1] + Zeros(899);
    FracCons(1, Zeros(899));
    FracZero(Zeros(899));
    var tenth := 0 - 1;
    TenTenth(tenth);
    TenAdd(tenth, 310, 309);
    TenAdd(tenth, 210, 209);
  }

  lemma TenTenth(k: int)
    requires k == 0 - 1
    ensures Ten(k) == 0.1
  {}

  lemma LongBeyond()
    ensures Nearest(Ten(309), INFINITY) && BeyondTables(Ten(309))
  {
    hide Nearest, Two, Ten;
    Log2TenExact(309);
    assert Log2Ten(309) == 1026;
    TwoMono(1024, 1026);
    DecimalToDouble.HugeRounds(Ten(309));
  }

  lemma LongFinite(b: nat)
    requires Nearest(Ten(209), b)
    ensures b < INFINITY
  {
    hide Nearest, Two, Ten;
    Log2TenExact(209);
    assert Log2Ten(209) == 694;
    TwoMono(0, 695);
    TenMono(0, 209);
    TenBase();
    TwoMono(695, 1000);
    SmallIsFinite(Ten(209), b);
  }

  // ---- 0.00000000000000000000000, with 23 zeros behind the point ----

  function LongZero(): Number { Number(false, [0], Zeros(23), NoExponent) }

  /** It is a literal of the grammar, and reaches the conversions with mantissa zero and exponent -23, for
      which they are not defined. */
  lemma UnsafeZero() returns (x: Literal, kept: nat)
    ensures ValidNumber(LongZero()) && !ZeroSafe(LongZero())
    ensures Describes(x, LongZero(), kept) && x.Scaled? && x.man == 0 && x.exp10 == -23
  {
    hide NatOf, Zeros;
    var d := LongZero().whole + LongZero().frac;
    assert AllZero(d) by { assert d[0] == 0; }
    assert d[..24] == d;
    NatOfZero(d);
    x, kept := Scaled(false, 0, -23, false), 24;
  }
}
