/** Well-formed JSON is balanced: the bracket count finds the matching close of a container, although
    it looks at one kind of bracket only and knows nothing else of the grammar. */
module Balance {
  import opened Options
  import opened Digits
  import opened Json
  import opened Lexer
  import opened StringMask
  import opened SkipContainer

  predicate Brackets(left: byte, right: byte) {
    (left == OPEN_ARRAY && right == CLOSE_ARRAY) || (left == OPEN_OBJECT && right == CLOSE_OBJECT)
  }

  const CLEAN := State(false, false)
  const QUOTED := State(true, false)

  predicate Inert(c: byte) {
    c != QUOTE && c != BACKSLASH && c != OPEN_ARRAY && c != CLOSE_ARRAY && c != OPEN_OBJECT && c != CLOSE_OBJECT
  }

  predicate AllInert(x: Bytes) { forall k :: 0 <= k < |x| ==> Inert(x[k]) }

  lemma {:induction false} InertRun(s: Bytes, i: nat, x: Bytes, d: nat, left: byte, right: byte)
    requires Brackets(left, right) && At(s, i, x) && AllInert(x)
    ensures Close(s, i, CLEAN, d, left, right) == Close(s, i + |x|, CLEAN, d, left, right)
    decreases |x|
  {
    if x != [] {
      AtConcat(s, i, [x[0]], x[1..]);
      assert x == [x[0]] + x[1..];
      AtByte(s, i, x[0]);
      InertRun(s, i + 1, x[1..], d, left, right);
    }
  }

  /** Inside a string literal no bracket counts. */
  lemma {:induction false} QuotedRun(s: Bytes, i: nat, x: Bytes, d: nat, left: byte, right: byte)
    requires Brackets(left, right) && At(s, i, x)
    requires forall k :: 0 <= k < |x| ==> x[k] != QUOTE && x[k] != BACKSLASH
    ensures Close(s, i, QUOTED, d, left, right) == Close(s, i + |x|, QUOTED, d, left, right)
    decreases |x|
  {
    if x != [] {
      AtConcat(s, i, [x[0]], x[1..]);
      assert x == [x[0]] + x[1..];
      AtByte(s, i, x[0]);
      QuotedRun(s, i + 1, x[1..], d, left, right);
    }
  }

  /** A backslash and the byte after it. */
  lemma EscapeRun(s: Bytes, i: nat, e: byte, d: nat, left: byte, right: byte)
    requires Brackets(left, right) && At(s, i, [BACKSLASH, e])
    ensures Close(s, i, QUOTED, d, left, right) == Close(s, i + 2, QUOTED, d, left, right)
  {
    AtTwo(s, i, BACKSLASH, e);
    assert Close(s, i, QUOTED, d, left, right) == Close(s, i + 1, State(true, true), d, left, right);
  }

  lemma UnicodeRun(s: Bytes, i: nat, h: Bytes, d: nat, left: byte, right: byte)
    requires Brackets(left, right) && IsHex4(h) && At(s, i, [BACKSLASH, 0x75] + h)
    ensures Close(s, i, QUOTED, d, left, right) == Close(s, i + 6, QUOTED, d, left, right)
  {
    hide Close;
    AtConcat(s, i, [BACKSLASH, 0x75], h);
    EscapeRun(s, i, 0x75, d, left, right);
    assert HexDigit(QUOTE) == None && HexDigit(BACKSLASH) == None;
    QuotedRun(s, i + 2, h, d, left, right);
  }

  lemma PieceRun(s: Bytes, i: nat, p: Piece, d: nat, left: byte, right: byte)
    requires Brackets(left, right) && ValidPiece(p) && At(s, i, PieceText(p))
    ensures Close(s, i, QUOTED, d, left, right) == Close(s, i + |PieceText(p)|, QUOTED, d, left, right)
  {
    hide Close, At, Hex4;
    match p
    case Plain(b) => QuotedRun(s, i, [b], d, left, right);
    case Short(e) => EscapeRun(s, i, e, d, left, right);
    case Unicode(h) => UnicodeRun(s, i, h, d, left, right);
    case Surrogates(h, l) =>
      var u := [BACKSLASH, 0x75];
      Associate(u + h, u, l);
      AtConcat(s, i, u + h, u + l);
      UnicodeRun(s, i, h, d, left, right);
      UnicodeRun(s, i + 6, l, d, left, right);
  }

  lemma {:induction false} PiecesRun(s: Bytes, i: nat, ps: seq<Piece>, d: nat, left: byte, right: byte)
    requires Brackets(left, right) && ValidPieces(ps) && At(s, i, PiecesText(ps))
    ensures Close(s, i, QUOTED, d, left, right) == Close(s, i + |PiecesText(ps)|, QUOTED, d, left, right)
    decreases |ps|
  {
    hide Close, At, PieceText;
    if ps != [] {
      AtConcat(s, i, PieceText(ps[0]), PiecesText(ps[1..]));
      PieceRun(s, i, ps[0], d, left, right);
      PiecesRun(s, i + |PieceText(ps[0])|, ps[1..], d, left, right);
    }
  }

  lemma QuoteStep(s: Bytes, i: nat, st: State, d: nat, left: byte, right: byte)
    requires Brackets(left, right) && At(s, i, [QUOTE]) && (st == CLEAN || st == QUOTED)
    ensures Close(s, i, st, d, left, right) ==
            Close(s, i + 1, if st == CLEAN then QUOTED else CLEAN, d, left, right)
  {
    AtByte(s, i, QUOTE);
  }

  lemma StringRun(s: Bytes, i: nat, ps: seq<Piece>, d: nat, left: byte, right: byte)
    requires Brackets(left, right) && ValidPieces(ps) && At(s, i, StringText(ps))
    ensures Close(s, i, CLEAN, d, left, right) == Close(s, i + |StringText(ps)|, CLEAN, d, left, right)
  {
    hide Close, At, PiecesText;
    AtConcat(s, i, [QUOTE] + PiecesText(ps), [QUOTE]);
    AtConcat(s, i, [QUOTE], PiecesText(ps));
    QuoteStep(s, i, CLEAN, d, left, right);
    PiecesRun(s, i + 1, ps, d, left, right);
    QuoteStep(s, i + 1 + |PiecesText(ps)|, QUOTED, d, left, right);
  }

  /** The bytes a number may be spelled with. */
  predicate NumberByte(c: byte) { IsDigit(c) || c == MINUS || c == PLUS || c == DOT || IsExpMark(c) }

  predicate NumberBytes(x: Bytes) { forall k :: 0 <= k < |x| ==> NumberByte(x[k]) }

  lemma NumberSpelling(n: Number)
    requires ValidNumber(n)
    ensures NumberBytes(NumberText(n))
  {
    DigitBytes(n.whole);
    DigitBytes(n.frac);
    ConcatBytes([DOT], DigitText(n.frac));
    if n.exp.Exponent? {
      DigitBytes(n.exp.digits);
      ConcatBytes(n.exp.sign, DigitText(n.exp.digits));
      ConcatBytes([n.exp.mark], n.exp.sign + DigitText(n.exp.digits));
    }
    hide DigitText, NumberBytes;
    var f, e := FractionText(n.frac), ExponentText(n.exp);
    ConcatBytes(f, e);
    ConcatBytes(DigitText(n.whole), f + e);
    ConcatBytes(SignText(n.neg), DigitText(n.whole) + (f + e));
  }

  lemma ConcatBytes(x: Bytes, y: Bytes)
    ensures NumberBytes(x) && NumberBytes(y) ==> NumberBytes(x + y)
    ensures NumberBytes([]) && NumberBytes([DOT]) && NumberBytes([MINUS]) && NumberBytes([PLUS])
    ensures NumberBytes([0x65]) && NumberBytes([0x45])
  {}

  lemma DigitBytes(d: seq<digit>)
    ensures NumberBytes(DigitText(d))
  {}

  lemma NumberInert(n: Number)
    requires ValidNumber(n)
    ensures AllInert(NumberText(n))
  {
    hide NumberText, ValidNumber;
    NumberSpelling(n);
  }

  lemma BlankInert(w: Bytes)
    requires IsBlank(w)
    ensures AllInert(w)
  {}

  /** What is left after the closing bracket c, which ends at e. */
  function Closed(s: Bytes, e: nat, c: byte, d: nat, left: byte, right: byte): Option<nat> {
    if c != right then Close(s, e, CLEAN, d, left, right)
    else if d == 0 then Some(e) else Close(s, e, CLEAN, d - 1, left, right)
  }

  function Opened(c: byte, d: nat, left: byte): nat { if c == left then d + 1 else d }

  lemma OpenStep(s: Bytes, i: nat, c: byte, d: nat, left: byte, right: byte)
    requires Brackets(left, right) && At(s, i, [c]) && (c == OPEN_ARRAY || c == OPEN_OBJECT)
    ensures Close(s, i, CLEAN, d, left, right) == Close(s, i + 1, CLEAN, Opened(c, d, left), left, right)
  {
    AtByte(s, i, c);
  }

  lemma CloseStep(s: Bytes, i: nat, c: byte, d: nat, left: byte, right: byte)
    requires Brackets(left, right) && At(s, i, [c]) && (c == CLOSE_ARRAY || c == CLOSE_OBJECT)
    ensures Close(s, i, CLEAN, d, left, right) == Closed(s, i + 1, c, d, left, right)
  {
    AtByte(s, i, c);
  }

  /** A value leaves the count where it was. */
  lemma {:induction false} ValueRun(s: Bytes, i: nat, v: Value, d: nat, left: byte, right: byte)
    requires Brackets(left, right) && Valid(v) && At(s, i, Text(v))
    ensures Close(s, i, CLEAN, d, left, right) == Close(s, i + |Text(v)|, CLEAN, d, left, right)
    decreases v, 0
  {
    hide Close, At, StringText, NumberText, ElementsText, PairsText, IsBlank;
    match v
    case NullValue => InertRun(s, i, Text(v), d, left, right);
    case TrueValue => InertRun(s, i, Text(v), d, left, right);
    case FalseValue => InertRun(s, i, Text(v), d, left, right);
    case NumberValue(n) =>
      NumberInert(n);
      InertRun(s, i, Text(v), d, left, right);
    case StringValue(ps) => StringRun(s, i, ps, d, left, right);
    case EmptyArray(blank) => EmptyRun(s, i, OPEN_ARRAY, blank, CLOSE_ARRAY, d, left, right);
    case EmptyObject(blank) => EmptyRun(s, i, OPEN_OBJECT, blank, CLOSE_OBJECT, d, left, right);
    case ArrayValue(es) =>
      AtConcat(s, i, [OPEN_ARRAY], ElementsText(es));
      OpenStep(s, i, OPEN_ARRAY, d, left, right);
      ElementsRun(s, i + 1, es, Opened(OPEN_ARRAY, d, left), left, right);
    case ObjectValue(ps) =>
      AtConcat(s, i, [OPEN_OBJECT], PairsText(ps));
      OpenStep(s, i, OPEN_OBJECT, d, left, right);
      PairsRun(s, i + 1, ps, Opened(OPEN_OBJECT, d, left), left, right);
  }

  lemma EmptyRun(s: Bytes, i: nat, open: byte, blank: Bytes, close: byte, d: nat, left: byte, right: byte)
    requires Brackets(left, right) && Brackets(open, close) && IsBlank(blank) && At(s, i, [open] + (blank + [close]))
    ensures Close(s, i, CLEAN, d, left, right) == Close(s, i + |blank| + 2, CLEAN, d, left, right)
  {
    hide Close, At;
    AtConcat(s, i, [open], blank + [close]);
    AtConcat(s, i + 1, blank, [close]);
    OpenStep(s, i, open, d, left, right);
    BlankInert(blank);
    InertRun(s, i + 1, blank, Opened(open, d, left), left, right);
    CloseStep(s, i + 1 + |blank|, close, Opened(open, d, left), left, right);
  }

  /** Blanks around a value leave the count where it was. */
  lemma {:induction false} PaddedRun(s: Bytes, i: nat, w: Bytes, v: Value, u: Bytes, rest: Bytes, d: nat,
      left: byte, right: byte)
    requires Brackets(left, right) && IsBlank(w) && Valid(v) && IsBlank(u) && At(s, i, w + (Text(v) + (u + rest)))
    ensures var e := i + |w| + |Text(v)| + |u|;
            At(s, e, rest) && Close(s, i, CLEAN, d, left, right) == Close(s, e, CLEAN, d, left, right)
    decreases v, 1
  {
    hide Close, At, Text, IsBlank, Valid;
    AtConcat(s, i, w, Text(v) + (u + rest));
    AtConcat(s, i + |w|, Text(v), u + rest);
    AtConcat(s, i + |w| + |Text(v)|, u, rest);
    BlankInert(w);
    BlankInert(u);
    InertRun(s, i, w, d, left, right);
    ValueRun(s, i + |w|, v, d, left, right);
    InertRun(s, i + |w| + |Text(v)|, u, d, left, right);
  }

  lemma {:induction false} ElementsRun(s: Bytes, i: nat, es: Elements, d: nat, left: byte, right: byte)
    requires Brackets(left, right) && ValidElements(es) && At(s, i, ElementsText(es))
    ensures Close(s, i, CLEAN, d, left, right) == Closed(s, i + |ElementsText(es)|, CLOSE_ARRAY, d, left, right)
    decreases es
  {
    hide Close, At, Text, IsBlank, Valid, Closed;
    var more := MoreElementsText(es.rest);
    PaddedRun(s, i, es.before, es.v, es.after, more, d, left, right);
    var e := i + |es.before| + |Text(es.v)| + |es.after|;
    assert |ElementsText(es)| == |es.before| + |Text(es.v)| + |es.after| + |more|;
    if es.rest.Then? {
      AtConcat(s, e, [COMMA], ElementsText(es.rest.more));
      InertRun(s, e, [COMMA], d, left, right);
      ElementsRun(s, e + 1, es.rest.more, d, left, right);
    } else {
      CloseStep(s, e, CLOSE_ARRAY, d, left, right);
    }
  }

  lemma {:induction false} KeyRun(s: Bytes, i: nat, ps: Pairs, rest: Bytes, d: nat, left: byte, right: byte)
    requires Brackets(left, right) && ValidPieces(ps.key) && IsBlank(ps.a) && IsBlank(ps.b)
    requires At(s, i, ps.a + (StringText(ps.key) + (ps.b + ([COLON] + rest))))
    ensures var e := i + |ps.a| + |StringText(ps.key)| + |ps.b| + 1;
            At(s, e, rest) && Close(s, i, CLEAN, d, left, right) == Close(s, e, CLEAN, d, left, right)
  {
    hide Close, At, StringText, IsBlank, ValidPieces;
    var j := i + |ps.a|;
    var k := j + |StringText(ps.key)|;
    AtConcat(s, i, ps.a, StringText(ps.key) + (ps.b + ([COLON] + rest)));
    AtConcat(s, j, StringText(ps.key), ps.b + ([COLON] + rest));
    AtConcat(s, k, ps.b, [COLON] + rest);
    AtConcat(s, k + |ps.b|, [COLON], rest);
    BlankInert(ps.a);
    BlankInert(ps.b);
    InertRun(s, i, ps.a, d, left, right);
    StringRun(s, j, ps.key, d, left, right);
    InertRun(s, k, ps.b, d, left, right);
    InertRun(s, k + |ps.b|, [COLON], d, left, right);
  }

  lemma {:induction false} PairsRun(s: Bytes, i: nat, ps: Pairs, d: nat, left: byte, right: byte)
    requires Brackets(left, right) && ValidPairs(ps) && At(s, i, PairsText(ps))
    ensures Close(s, i, CLEAN, d, left, right) == Closed(s, i + |PairsText(ps)|, CLOSE_OBJECT, d, left, right)
    decreases ps
  {
    hide Close, At, Text, IsBlank, Valid, Closed, StringText, ValidPieces;
    var more := MorePairsText(ps.rest);
    KeyRun(s, i, ps, ps.c + (Text(ps.v) + (ps.d + more)), d, left, right);
    var j := i + |ps.a| + |StringText(ps.key)| + |ps.b| + 1;
    PaddedRun(s, j, ps.c, ps.v, ps.d, more, d, left, right);
    var e := j + |ps.c| + |Text(ps.v)| + |ps.d|;
    assert e + |more| == i + |PairsText(ps)|;
    if ps.rest.ThenPair? {
      AtConcat(s, e, [COMMA], PairsText(ps.rest.more));
      InertRun(s, e, [COMMA], d, left, right);
      PairsRun(s, e + 1, ps.rest.more, d, left, right);
    } else {
      CloseStep(s, e, CLOSE_OBJECT, d, left, right);
    }
  }

  /** Just after the opening bracket of a well-formed container, the count stops just past the
      matching close. */
  lemma MatchingClose(s: Bytes, i: nat, v: Value)
    requires Valid(v) && At(s, i, Text(v))
    requires v.EmptyArray? || v.ArrayValue? || v.EmptyObject? || v.ObjectValue?
    ensures if v.EmptyArray? || v.ArrayValue?
            then Close(s, i + 1, CLEAN, 0, OPEN_ARRAY, CLOSE_ARRAY) == Some(i + |Text(v)|)
            else Close(s, i + 1, CLEAN, 0, OPEN_OBJECT, CLOSE_OBJECT) == Some(i + |Text(v)|)
  {
    hide Close, At, ElementsText, PairsText, IsBlank;
    match v
    case ArrayValue(es) =>
      AtConcat(s, i, [OPEN_ARRAY], ElementsText(es));
      ElementsRun(s, i + 1, es, 0, OPEN_ARRAY, CLOSE_ARRAY);
    case ObjectValue(ps) =>
      AtConcat(s, i, [OPEN_OBJECT], PairsText(ps));
      PairsRun(s, i + 1, ps, 0, OPEN_OBJECT, CLOSE_OBJECT);
    case EmptyArray(blank) => EmptyClose(s, i, OPEN_ARRAY, blank, CLOSE_ARRAY);
    case EmptyObject(blank) => EmptyClose(s, i, OPEN_OBJECT, blank, CLOSE_OBJECT);
  }

  lemma EmptyClose(s: Bytes, i: nat, open: byte, blank: Bytes, close: byte)
    requires Brackets(open, close) && IsBlank(blank) && At(s, i, [open] + (blank + [close]))
    ensures Close(s, i + 1, CLEAN, 0, open, close) == Some(i + |blank| + 2)
  {
    hide Close, At;
    AtConcat(s, i, [open], blank + [close]);
    AtConcat(s, i + 1, blank, [close]);
    BlankInert(blank);
    InertRun(s, i + 1, blank, 0, open, close);
    CloseStep(s, i + 1 + |blank|, close, 0, open, close);
  }
}
