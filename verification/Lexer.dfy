/** The tokens of a JSON text read off a byte sequence from a position: the simple meaning that the
    in-place and block-wise scanners keep.  Each scanner is shown to accept exactly the spellings
    of the grammar. */
module Lexer {
  import opened Options
  import opened Digits
  import opened Json

  /** The byte at i; past the end a byte that starts no token. */
  function Peek(s: Bytes, i: nat): byte { if i < |s| then s[i] else 0 }

  predicate At(s: Bytes, i: nat, x: Bytes) { i + |x| <= |s| && s[i..i + |x|] == x }

  lemma AtConcat(s: Bytes, i: nat, x: Bytes, y: Bytes)
    ensures At(s, i, x + y) <==> At(s, i, x) && At(s, i + |x|, y)
  {
    if i + |x| + |y| <= |s| {
      var z := s[i..i + |x| + |y|];
      assert z[..|x|] == s[i..i + |x|];
      assert z[|x|..] == s[i + |x|..i + |x| + |y|];
      assert (x + y)[..|x|] == x && (x + y)[|x|..] == y;
      assert z == z[..|x|] + z[|x|..];
    }
  }

  lemma SliceJoin(s: Bytes, i: nat, j: nat, k: nat)
    requires i <= j <= k <= |s|
    ensures s[i..k] == s[i..j] + s[j..k]
  {}

  lemma Associate(x: Bytes, y: Bytes, z: Bytes)
    ensures x + y + z == x + (y + z)
  {}

  lemma AtByte(s: Bytes, i: nat, c: byte)
    ensures At(s, i, [c]) <==> i < |s| && s[i] == c
  {}

  // ---- white space ----

  function Skip(s: Bytes, i: nat): (j: nat)
    ensures i <= j && (i <= |s| ==> j <= |s|)
    ensures !IsSpace(Peek(s, j))
    decreases |s| - i
  {
    if i < |s| && IsSpace(s[i]) then Skip(s, i + 1) else i
  }

  lemma {:induction false} SkipSound(s: Bytes, i: nat)
    requires i <= |s|
    ensures IsBlank(s[i..Skip(s, i)])
    decreases |s| - i
  {
    if i < |s| && IsSpace(s[i]) {
      SkipSound(s, i + 1);
      assert s[i..Skip(s, i)] == [s[i]] + s[i + 1..Skip(s, i)];
    }
  }

  lemma {:induction false} SkipComplete(s: Bytes, i: nat, w: Bytes)
    requires At(s, i, w) && IsBlank(w)
    ensures Skip(s, i) == Skip(s, i + |w|)
    decreases |w|
  {
    if w != [] {
      assert s[i] == w[0] by { assert s[i..i + |w|][0] == s[i]; }
      assert s[i + 1..i + 1 + |w[1..]|] == s[i..i + |w|][1..];
      SkipComplete(s, i + 1, w[1..]);
    }
  }

  // ---- strings ----

  /** The four hex digits at i. */
  function HexAt(s: Bytes, i: nat): Option<nat> {
    if i + 4 <= |s| && IsHex4(s[i..i + 4]) then Some(Hex4(s[i..i + 4])) else None
  }

  datatype Scanned = Scanned(bytes: Bytes, end: nat)

  /** The escape whose backslash is at i: the bytes it stands for and its end. */
  function ScanEscape(s: Bytes, i: nat): (r: Option<Scanned>)
    ensures r.Some? ==> i < r.value.end <= |s| && 1 <= |r.value.bytes| <= 4
  {
    if i + 1 >= |s| then None
    else if s[i + 1] != 0x75 then
      match Unescape(s[i + 1]) case None => None case Some(b) => Some(Scanned([b], i + 2))
    else
      match HexAt(s, i + 2)
      case None => None
      case Some(h) =>
        if IsLow(h) then None
        else if !IsHigh(h) then Some(Scanned(Utf8(h), i + 6))
        else if !At(s, i + 6, [BACKSLASH, 0x75]) then None
        else
          match HexAt(s, i + 8)
          case None => None
          case Some(l) => if IsLow(l) then Some(Scanned(Utf8(PairPoint(h, l)), i + 12)) else None
  }

  function Prepend(d: Bytes, r: Option<Scanned>): Option<Scanned> {
    match r case None => None case Some(x) => Some(Scanned(d + x.bytes, x.end))
  }

  /** The rest of a string literal from i up to and including the closing quote. */
  function ScanString(s: Bytes, i: nat): (r: Option<Scanned>)
    ensures r.Some? ==> i < r.value.end <= |s|
    decreases |s| - i
  {
    if i >= |s| then None
    else if s[i] == QUOTE then Some(Scanned([], i + 1))
    else if s[i] < 0x20 then None
    else if s[i] != BACKSLASH then Prepend([s[i]], ScanString(s, i + 1))
    else match ScanEscape(s, i) case None => None case Some(x) => Prepend(x.bytes, ScanString(s, x.end))
  }

  lemma PrependTwice(d: Bytes, e: Bytes, r: Option<Scanned>)
    ensures Prepend(d, Prepend(e, r)) == Prepend(d + e, r)
  {
    if r.Some? {
      assert d + (e + r.value.bytes) == d + e + r.value.bytes;
    }
  }

  lemma EscapeSound(s: Bytes, i: nat) returns (p: Piece)
    requires i < |s| && s[i] == BACKSLASH && ScanEscape(s, i).Some?
    ensures ValidPiece(p) && PieceMeaning(p) == ScanEscape(s, i).value.bytes
    ensures PieceText(p) == s[i..ScanEscape(s, i).value.end]
  {
    if s[i + 1] != 0x75 {
      p := Short(s[i + 1]);
      assert s[i..i + 2] == [s[i], s[i + 1]];
    } else {
      var h := s[i + 2..i + 6];
      assert s[i..i + 6] == [BACKSLASH, 0x75] + h;
      if !IsHigh(Hex4(h)) {
        p := Unicode(h);
      } else {
        var l := s[i + 8..i + 12];
        p := Surrogates(h, l);
        assert s[i..i + 12] == s[i..i + 6] + s[i + 6..i + 8] + l;
      }
    }
  }

  lemma {:induction false} StringSound(s: Bytes, i: nat) returns (ps: seq<Piece>)
    requires ScanString(s, i).Some?
    ensures ValidPieces(ps) && PiecesMeaning(ps) == ScanString(s, i).value.bytes
    ensures PiecesText(ps) + [QUOTE] == s[i..ScanString(s, i).value.end]
    decreases |s| - i
  {
    var e := ScanString(s, i).value.end;
    if s[i] == QUOTE {
      ps := [];
    } else {
      var p, j := Plain(s[i]), i + 1;
      if s[i] == BACKSLASH {
        p := EscapeSound(s, i);
        j := ScanEscape(s, i).value.end;
      } else {
        assert s[i..j] == [s[i]];
      }
      var rest := StringSound(s, j);
      ps := [p] + rest;
      assert ps[1..] == rest;
      SliceJoin(s, i, j, e);
      Associate(PieceText(p), PiecesText(rest), [QUOTE]);
    }
  }

  lemma PieceComplete(s: Bytes, i: nat, p: Piece)
    requires ValidPiece(p) && At(s, i, PieceText(p)) && !p.Plain?
    ensures s[i] == BACKSLASH
    ensures ScanEscape(s, i) == Some(Scanned(PieceMeaning(p), i + |PieceText(p)|))
  {
    hide Utf8, Hex4, HexDigit;
    assert Unescape(0x75) == None;
    var u := [BACKSLASH, 0x75];
    match p
    case Short(e) =>
      AtTwo(s, i, BACKSLASH, e);
    case Unicode(h) =>
      UnicodeAt(s, i, h);
    case Surrogates(h, l) =>
      AtConcat(s, i, u + h + u, l);
      AtConcat(s, i, u + h, u);
      UnicodeAt(s, i, h);
      HexFound(s, i + 8, l);
  }

  lemma AtTwo(s: Bytes, i: nat, b: byte, c: byte)
    requires At(s, i, [b, c])
    ensures i + 1 < |s| && s[i] == b && s[i + 1] == c
  {
    assert s[i..i + 2][0] == s[i] && s[i..i + 2][1] == s[i + 1];
  }

  lemma HexFound(s: Bytes, i: nat, h: Bytes)
    requires IsHex4(h) && At(s, i, h)
    ensures HexAt(s, i) == Some(Hex4(h))
  {}

  lemma UnicodeAt(s: Bytes, i: nat, h: Bytes)
    requires IsHex4(h) && At(s, i, [BACKSLASH, 0x75] + h)
    ensures i + 6 <= |s| && s[i] == BACKSLASH && s[i + 1] == 0x75 && HexAt(s, i + 2) == Some(Hex4(h))
  {
    AtConcat(s, i, [BACKSLASH, 0x75], h);
    AtTwo(s, i, BACKSLASH, 0x75);
  }

  lemma {:induction false} StringComplete(s: Bytes, i: nat, ps: seq<Piece>)
    requires ValidPieces(ps) && At(s, i, PiecesText(ps) + [QUOTE])
    ensures ScanString(s, i) == Some(Scanned(PiecesMeaning(ps), i + |PiecesText(ps)| + 1))
    decreases |ps|
  {
    hide At, ScanEscape, PieceMeaning, PieceText, Unescape;
    if ps == [] {
      AtByte(s, i, QUOTE);
      assert PiecesText(ps) + [QUOTE] == [QUOTE];
    } else {
      var p := ps[0];
      var t := PieceText(p);
      Associate(t, PiecesText(ps[1..]), [QUOTE]);
      AtConcat(s, i, t, PiecesText(ps[1..]) + [QUOTE]);
      StringComplete(s, i + |t|, ps[1..]);
      assert ValidPiece(p);
      if p.Plain? {
        PlainComplete(s, i, p);
      } else {
        PieceComplete(s, i, p);
      }
    }
  }

  lemma PlainComplete(s: Bytes, i: nat, p: Piece)
    requires p.Plain? && ValidPiece(p) && At(s, i, PieceText(p))
    ensures i < |s| && s[i] == p.b && PieceText(p) == [p.b] == PieceMeaning(p)
  {
    AtByte(s, i, p.b);
  }

  // ---- numbers ----

  function DigitRun(s: Bytes, i: nat): (j: nat)
    ensures i <= j && (i <= |s| ==> j <= |s|)
    ensures !IsDigit(Peek(s, j))
    ensures forall k :: i <= k < j ==> k < |s| && IsDigit(s[k])
    decreases |s| - i
  {
    if i < |s| && IsDigit(s[i]) then DigitRun(s, i + 1) else i
  }

  function DigitsIn(s: Bytes, i: nat, j: nat): (d: seq<digit>)
    requires i <= j <= |s| && forall k :: i <= k < j ==> IsDigit(s[k])
    ensures |d| == j - i && forall k :: 0 <= k < |d| ==> d[k] == s[i + k] - ZERO
  {
    DigitsOfText(s[i..j])
  }

  lemma DigitsInText(s: Bytes, i: nat, j: nat)
    requires i <= j <= |s| && forall k :: i <= k < j ==> IsDigit(s[k])
    ensures DigitText(DigitsIn(s, i, j)) == s[i..j]
  {}

  lemma {:induction false} DigitRunComplete(s: Bytes, i: nat, j: nat)
    requires i <= j <= |s| && (forall k :: i <= k < j ==> IsDigit(s[k])) && !IsDigit(Peek(s, j))
    ensures DigitRun(s, i) == j
    decreases j - i
  {
    if i < j {
      DigitRunComplete(s, i + 1, j);
    }
  }

  lemma DigitTextAt(s: Bytes, i: nat, d: seq<digit>, k: nat)
    requires At(s, i, DigitText(d)) && k < |d|
    ensures i + k < |s| && s[i + k] == ZERO + d[k] && IsDigit(s[i + k])
  {
    assert s[i + k] == s[i..i + |d|][k];
  }

  lemma DigitTextComplete(s: Bytes, i: nat, d: seq<digit>)
    requires At(s, i, DigitText(d)) && !IsDigit(Peek(s, i + |d|))
    ensures DigitRun(s, i) == i + |d| <= |s|
    ensures forall k :: i <= k < i + |d| ==> IsDigit(s[k])
    ensures DigitsIn(s, i, i + |d|) == d
  {
    var j := i + |d|;
    assert j <= |s|;
    forall k | i <= k < j
      ensures IsDigit(s[k]) && s[k] - ZERO == d[k - i]
    {
      DigitTextAt(s, i, d, k - i);
    }
    DigitRunComplete(s, i, j);
  }

  datatype Run = Run(digits: seq<digit>, end: nat)

  /** At least one digit. */
  function ScanDigits(s: Bytes, i: nat): (r: Option<Run>)
    ensures r.Some? ==> i < r.value.end <= |s| && r.value.digits != []
    ensures r.Some? <==> IsDigit(Peek(s, i))
  {
    var j := DigitRun(s, i);
    if i < j then Some(Run(DigitsIn(s, i, j), j)) else None
  }

  /** The integer part: a lone zero, or digits starting with another digit. */
  function ScanWhole(s: Bytes, i: nat): (r: Option<Run>)
    ensures r.Some? ==> i < r.value.end <= |s|
  {
    if Peek(s, i) == ZERO then Some(Run([0], i + 1)) else ScanDigits(s, i)
  }

  function ScanFraction(s: Bytes, i: nat): (r: Option<Run>)
    requires i <= |s|
    ensures r.Some? ==> i <= r.value.end <= |s|
  {
    if Peek(s, i) == DOT then ScanDigits(s, i + 1) else Some(Run([], i))
  }

  datatype ExponentRun = ExponentRun(exp: Exponent, end: nat)

  function ScanSign(s: Bytes, i: nat): (j: nat)
    ensures i <= j <= i + 1 && (i <= |s| ==> j <= |s|)
  {
    if Peek(s, i) == MINUS || Peek(s, i) == PLUS then i + 1 else i
  }

  function ScanExponent(s: Bytes, i: nat): (r: Option<ExponentRun>)
    requires i <= |s|
    ensures r.Some? ==> i <= r.value.end <= |s|
  {
    if !IsExpMark(Peek(s, i)) then Some(ExponentRun(NoExponent, i))
    else
      var j := ScanSign(s, i + 1);
      match ScanDigits(s, j)
      case None => None
      case Some(r) => Some(ExponentRun(Exponent(s[i], s[i + 1..j], r.digits), r.end))
  }

  datatype NumberRun = NumberRun(n: Number, end: nat)

  /** The longest number literal at i. */
  function ScanNumber(s: Bytes, i: nat): (r: Option<NumberRun>)
    ensures r.Some? ==> i < r.value.end <= |s|
  {
    var neg := Peek(s, i) == MINUS;
    match ScanWhole(s, if neg then i + 1 else i)
    case None => None
    case Some(w) =>
      match ScanFraction(s, w.end)
      case None => None
      case Some(f) =>
        match ScanExponent(s, f.end)
        case None => None
        case Some(e) => Some(NumberRun(Number(neg, w.digits, f.digits, e.exp), e.end))
  }

  lemma WholeSound(s: Bytes, i: nat)
    requires ScanWhole(s, i).Some?
    ensures var r := ScanWhole(s, i).value;
            DigitText(r.digits) == s[i..r.end] && r.digits != [] && (r.digits[0] == 0 ==> |r.digits| == 1)
  {
    var r := ScanWhole(s, i).value;
    if Peek(s, i) != ZERO {
      DigitsInText(s, i, r.end);
    }
  }

  lemma FractionSound(s: Bytes, i: nat)
    requires i <= |s| && ScanFraction(s, i).Some?
    ensures var r := ScanFraction(s, i).value; FractionText(r.digits) == s[i..r.end]
  {
    var r := ScanFraction(s, i).value;
    if Peek(s, i) == DOT {
      DigitsInText(s, i + 1, r.end);
      assert s[i..r.end] == [s[i]] + s[i + 1..r.end];
    }
  }

  lemma ExponentSound(s: Bytes, i: nat)
    requires i <= |s| && ScanExponent(s, i).Some?
    ensures var r := ScanExponent(s, i).value;
            ExponentText(r.exp) == s[i..r.end] && ValidNumber(Number(false, [0], [], r.exp))
  {
    var r := ScanExponent(s, i).value;
    if IsExpMark(Peek(s, i)) {
      var j := ScanSign(s, i + 1);
      DigitsInText(s, j, r.end);
      assert s[i..r.end] == [s[i]] + (s[i + 1..j] + s[j..r.end]);
    }
  }

  lemma ValidParts(neg: bool, w: seq<digit>, f: seq<digit>, e: Exponent)
    ensures ValidNumber(Number(neg, w, f, e)) <==>
            w != [] && (w[0] == 0 ==> |w| == 1) && ValidNumber(Number(false, [0], [], e))
  {}

  lemma NumberSound(s: Bytes, i: nat)
    requires ScanNumber(s, i).Some?
    ensures var r := ScanNumber(s, i).value; ValidNumber(r.n) && NumberText(r.n) == s[i..r.end]
  {
    hide DigitText, FractionText, ExponentText, ScanFraction, ScanExponent, ScanWhole, ValidNumber;
    var neg := Peek(s, i) == MINUS;
    var a := if neg then i + 1 else i;
    var w := ScanWhole(s, a).value;
    var f := ScanFraction(s, w.end).value;
    var e := ScanExponent(s, f.end).value;
    WholeSound(s, a);
    FractionSound(s, w.end);
    ExponentSound(s, f.end);
    ValidParts(neg, w.digits, f.digits, e.exp);
    assert s[i..a] == SignText(neg);
    SliceJoin(s, i, a, e.end);
    SliceJoin(s, a, w.end, e.end);
    SliceJoin(s, w.end, f.end, e.end);
  }

  /** What may stand right after a value: white space, punctuation or the end mark. */
  predicate Follows(c: byte) {
    IsSpace(c) || c == COMMA || c == CLOSE_ARRAY || c == CLOSE_OBJECT || c == 0x78
  }

  lemma SignComplete(s: Bytes, i: nat, x: Bytes)
    requires x == [] || x == [PLUS] || x == [MINUS]
    requires At(s, i, x) && IsDigit(Peek(s, i + |x|))
    ensures ScanSign(s, i) == i + |x| <= |s| && s[i..i + |x|] == x
  {
    if x != [] {
      AtByte(s, i, x[0]);
    }
  }

  lemma ExponentComplete(s: Bytes, i: nat, x: Exponent)
    requires ValidNumber(Number(false, [0], [], x)) && At(s, i, ExponentText(x)) && i <= |s|
    requires Follows(Peek(s, i + |ExponentText(x)|))
    ensures ScanExponent(s, i) == Some(ExponentRun(x, i + |ExponentText(x)|))
  {
    hide At, DigitText, ScanSign;
    if x.Exponent? {
      var d := DigitText(x.digits);
      AtConcat(s, i, [x.mark], x.sign + d);
      AtByte(s, i, x.mark);
      AtConcat(s, i + 1, x.sign, d);
      var j := i + 1 + |x.sign|;
      DigitTextComplete(s, j, x.digits);
      DigitTextAt(s, j, x.digits, 0);
      SignComplete(s, i + 1, x.sign);
    }
  }

  lemma ExponentStart(s: Bytes, i: nat, x: Exponent)
    requires ValidNumber(Number(false, [0], [], x)) && At(s, i, ExponentText(x))
    ensures if x.NoExponent? then ExponentText(x) == [] else IsExpMark(Peek(s, i))
  {
    if x.Exponent? {
      AtConcat(s, i, [x.mark], x.sign + DigitText(x.digits));
      AtByte(s, i, x.mark);
    }
  }

  lemma FractionStart(s: Bytes, i: nat, f: seq<digit>)
    requires At(s, i, FractionText(f))
    ensures if f == [] then FractionText(f) == [] else Peek(s, i) == DOT
  {
    if f != [] {
      AtConcat(s, i, [DOT], DigitText(f));
      AtByte(s, i, DOT);
    }
  }

  lemma FractionComplete(s: Bytes, i: nat, f: seq<digit>)
    requires At(s, i, FractionText(f)) && i <= |s|
    requires var c := Peek(s, i + |FractionText(f)|); !IsDigit(c) && c != DOT
    ensures ScanFraction(s, i) == Some(Run(f, i + |FractionText(f)|))
  {
    if f != [] {
      AtConcat(s, i, [DOT], DigitText(f));
      AtByte(s, i, DOT);
      DigitTextComplete(s, i + 1, f);
    }
  }

  lemma WholeComplete(s: Bytes, i: nat, w: seq<digit>)
    requires w != [] && (w[0] == 0 ==> |w| == 1) && At(s, i, DigitText(w))
    requires !IsDigit(Peek(s, i + |w|))
    ensures ScanWhole(s, i) == Some(Run(w, i + |w|))
    ensures IsDigit(Peek(s, i))
  {
    DigitTextComplete(s, i, w);
    DigitTextAt(s, i, w, 0);
    assert w[0] == 0 ==> w == [0];
  }

  lemma NumberComplete(s: Bytes, i: nat, n: Number)
    requires ValidNumber(n) && At(s, i, NumberText(n)) && Follows(Peek(s, i + |NumberText(n)|))
    ensures ScanNumber(s, i) == Some(NumberRun(n, i + |NumberText(n)|))
  {
    hide At, DigitText, FractionText, ExponentText, ScanFraction, ScanExponent, ScanWhole, ValidNumber;
    ValidParts(n.neg, n.whole, n.frac, n.exp);
    var w, f, x := DigitText(n.whole), FractionText(n.frac), ExponentText(n.exp);
    AtConcat(s, i, SignText(n.neg), w + (f + x));
    var a := i + |SignText(n.neg)|;
    AtConcat(s, a, w, f + x);
    var b := a + |w|;
    AtConcat(s, b, f, x);
    var c := b + |f|;
    ExponentComplete(s, c, n.exp);
    ExponentStart(s, c, n.exp);
    FractionComplete(s, b, n.frac);
    FractionStart(s, b, n.frac);
    WholeComplete(s, a, n.whole);
    if n.neg {
      AtByte(s, i, MINUS);
    }
  }
}
