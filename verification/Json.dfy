/** JSON texts: the grammar of RFC 8259, sections 2 to 7, as concrete syntax trees.  `Text`
    spells a syntax tree out as bytes, `Meaning` gives the document tree it stands for.
    Escapes that are half of a surrogate pair are not part of this grammar. */
module Json {
  import opened Options
  import opened Digits

  type byte = n: nat | n < 256
  type Bytes = seq<byte>

  const QUOTE: byte := 0x22
  const BACKSLASH: byte := 0x5c
  const COMMA: byte := 0x2c
  const COLON: byte := 0x3a
  const OPEN_ARRAY: byte := 0x5b
  const CLOSE_ARRAY: byte := 0x5d
  const OPEN_OBJECT: byte := 0x7b
  const CLOSE_OBJECT: byte := 0x7d
  const ZERO: byte := 0x30
  const MINUS: byte := 0x2d
  const PLUS: byte := 0x2b
  const DOT: byte := 0x2e

  const NULL_WORD: Bytes := [0x6e, 0x75, 0x6c, 0x6c]
  const TRUE_WORD: Bytes := [0x74, 0x72, 0x75, 0x65]
  const FALSE_WORD: Bytes := [0x66, 0x61, 0x6c, 0x73, 0x65]

  predicate IsSpace(c: byte) { c == 0x20 || c == 0x0d || c == 0x0a || c == 0x09 }
  predicate IsDigit(c: byte) { ZERO <= c <= 0x39 }
  predicate IsExpMark(c: byte) { c == 0x65 || c == 0x45 }

  predicate IsBlank(s: Bytes) { forall k :: 0 <= k < |s| ==> IsSpace(s[k]) }

  // ---- document trees ----

  datatype Tree =
    | Null
    | Bool(b: bool)
    | Uint(u: nat)
    | Int(i: int)
    | Double(bits: nat)
    | String(s: Bytes)
    | Array(items: seq<Tree>)
    | Object(members: seq<Member>)

  datatype Member = Member(key: Bytes, value: Tree)

  // ---- strings (section 7) ----

  /** One unit of a string literal: a byte standing for itself, a two-byte escape, a \u escape,
      or two of them forming a surrogate pair.  `e` is the byte after the backslash, `h` and `l`
      are spelled with four hex digits. */
  datatype Piece =
    | Plain(b: byte)
    | Short(e: byte)
    | Unicode(h: Bytes)
    | Surrogates(h: Bytes, l: Bytes)

  function Unescape(e: byte): Option<byte> {
    if e == QUOTE || e == BACKSLASH || e == 0x2f then Some(e)
    else if e == 0x62 then Some(0x08)
    else if e == 0x66 then Some(0x0c)
    else if e == 0x6e then Some(0x0a)
    else if e == 0x72 then Some(0x0d)
    else if e == 0x74 then Some(0x09)
    else None
  }

  function HexDigit(c: byte): (r: Option<nat>)
    ensures r.Some? ==> r.value < 16
  {
    if IsDigit(c) then Some(c - ZERO)
    else if 0x61 <= c <= 0x66 then Some(c - 0x61 + 10)
    else if 0x41 <= c <= 0x46 then Some(c - 0x41 + 10)
    else None
  }

  predicate IsHex4(h: Bytes) { |h| == 4 && forall k :: 0 <= k < 4 ==> HexDigit(h[k]).Some? }

  function Hex4(h: Bytes): (v: nat)
    requires IsHex4(h)
    ensures v < 0x10000
  {
    HexDigit(h[0]).value * 0x1000 + HexDigit(h[1]).value * 0x100 +
    HexDigit(h[2]).value * 0x10 + HexDigit(h[3]).value
  }

  predicate IsHigh(u: nat) { 0xD800 <= u < 0xDC00 }
  predicate IsLow(u: nat) { 0xDC00 <= u < 0xE000 }

  /** The code point of a surrogate pair (section 3.3 of the Unicode standard's UTF-16). */
  function PairPoint(hi: nat, lo: nat): (c: nat)
    requires IsHigh(hi) && IsLow(lo)
    ensures 0x10000 <= c < 0x110000
  {
    0x10000 + (hi - 0xD800) * 0x400 + (lo - 0xDC00)
  }

  /** The UTF-8 encoding (section 3 of RFC 3629). */
  function Utf8(c: nat): (r: Bytes)
    requires c < 0x110000
    ensures 1 <= |r| <= 4
  {
    if c < 0x80 then [c]
    else if c < 0x800 then [0xC0 + c / 0x40, 0x80 + c % 0x40]
    else if c < 0x10000 then [0xE0 + c / 0x1000, 0x80 + c / 0x40 % 0x40, 0x80 + c % 0x40]
    else [0xF0 + c / 0x40000, 0x80 + c / 0x1000 % 0x40, 0x80 + c / 0x40 % 0x40, 0x80 + c % 0x40]
  }

  predicate ValidPiece(p: Piece) {
    match p
    case Plain(b) => b >= 0x20 && b != QUOTE && b != BACKSLASH
    case Short(e) => Unescape(e).Some?
    case Unicode(h) => IsHex4(h) && !IsHigh(Hex4(h)) && !IsLow(Hex4(h))
    case Surrogates(h, l) => IsHex4(h) && IsHex4(l) && IsHigh(Hex4(h)) && IsLow(Hex4(l))
  }

  function PieceText(p: Piece): Bytes {
    match p
    case Plain(b) => [b]
    case Short(e) => [BACKSLASH, e]
    case Unicode(h) => [BACKSLASH, 0x75] + h
    case Surrogates(h, l) => [BACKSLASH, 0x75] + h + [BACKSLASH, 0x75] + l
  }

  function PieceMeaning(p: Piece): Bytes
    requires ValidPiece(p)
  {
    match p
    case Plain(b) => [b]
    case Short(e) => [Unescape(e).value]
    case Unicode(h) => Utf8(Hex4(h))
    case Surrogates(h, l) => Utf8(PairPoint(Hex4(h), Hex4(l)))
  }

  predicate ValidPieces(ps: seq<Piece>) { forall k :: 0 <= k < |ps| ==> ValidPiece(ps[k]) }

  function PiecesText(ps: seq<Piece>): Bytes {
    if ps == [] then [] else PieceText(ps[0]) + PiecesText(ps[1..])
  }

  function PiecesMeaning(ps: seq<Piece>): Bytes
    requires ValidPieces(ps)
  {
    if ps == [] then [] else PieceMeaning(ps[0]) + PiecesMeaning(ps[1..])
  }

  /** A string literal with its quotes. */
  function StringText(ps: seq<Piece>): Bytes { [QUOTE] + PiecesText(ps) + [QUOTE] }

  // ---- numbers (section 6) ----

  /** -whole.frac exp; an empty `frac` means there is no fraction. */
  datatype Number = Number(neg: bool, whole: seq<digit>, frac: seq<digit>, exp: Exponent)

  datatype Exponent = NoExponent | Exponent(mark: byte, sign: Bytes, digits: seq<digit>)

  predicate ValidNumber(n: Number) {
    && n.whole != []
    && (n.whole[0] == 0 ==> |n.whole| == 1)
    && match n.exp {
         case NoExponent => true
         case Exponent(mark, sign, digits) =>
           IsExpMark(mark) && (sign == [] || sign == [PLUS] || sign == [MINUS]) && digits != []
       }
  }

  function DigitText(d: seq<digit>): (r: Bytes)
    ensures |r| == |d| && forall k :: 0 <= k < |d| ==> r[k] == ZERO + d[k]
  {
    seq(|d|, k requires 0 <= k < |d| => ZERO + d[k])
  }

  function DigitsOfText(t: Bytes): (d: seq<digit>)
    requires forall k :: 0 <= k < |t| ==> IsDigit(t[k])
    ensures |d| == |t| && forall k :: 0 <= k < |d| ==> d[k] == t[k] - ZERO
  {
    if t == [] then []
    else
      assert IsDigit(t[|t| - 1]);
      var x: digit := t[|t| - 1] - ZERO;
      DigitsOfText(t[..|t| - 1]) + [x]
  }

  function ExponentText(e: Exponent): Bytes {
    match e
    case NoExponent => []
    case Exponent(mark, sign, digits) => [mark] + (sign + DigitText(digits))
  }

  function FractionText(f: seq<digit>): Bytes { if f == [] then [] else [DOT] + DigitText(f) }

  function SignText(neg: bool): Bytes { if neg then [MINUS] else [] }

  function NumberText(n: Number): Bytes {
    SignText(n.neg) + (DigitText(n.whole) + (FractionText(n.frac) + ExponentText(n.exp)))
  }

  /** The bits of the literals that are not 64-bit integers; None means out of range. */
  type Conversion = Bytes -> Option<nat>

  const U64_END := 0x1_0000_0000_0000_0000
  const I64_END := 0x8000_0000_0000_0000

  /** A literal without fraction and exponent that fits in 64 bits is that integer. */
  function NumberMeaning(n: Number, conv: Conversion): Option<Tree> {
    var v := NatOf(n.whole);
    if n.frac == [] && n.exp.NoExponent? && !n.neg && v < U64_END then Some(Uint(v))
    else if n.frac == [] && n.exp.NoExponent? && n.neg && v == 0 then Some(Uint(0))
    else if n.frac == [] && n.exp.NoExponent? && n.neg && v <= I64_END then Some(Int(0 - v))
    else match conv(NumberText(n)) case None => None case Some(b) => Some(Double(b))
  }

  // ---- values (sections 3 to 5) ----

  datatype Value =
    | NullValue
    | TrueValue
    | FalseValue
    | NumberValue(n: Number)
    | StringValue(ps: seq<Piece>)
    | EmptyArray(blank: Bytes)
    | ArrayValue(elements: Elements)
    | EmptyObject(blank: Bytes)
    | ObjectValue(pairs: Pairs)

  /** One or more elements, each with the white space around it. */
  datatype Elements = Elements(before: Bytes, v: Value, after: Bytes, rest: MoreElements)
  datatype MoreElements = NoElement | Then(more: Elements)

  datatype Pairs = Pairs(a: Bytes, key: seq<Piece>, b: Bytes, c: Bytes, v: Value, d: Bytes, rest: MorePairs)
  datatype MorePairs = NoPair | ThenPair(more: Pairs)

  predicate Valid(v: Value) {
    match v
    case NullValue => true
    case TrueValue => true
    case FalseValue => true
    case NumberValue(n) => ValidNumber(n)
    case StringValue(ps) => ValidPieces(ps)
    case EmptyArray(blank) => IsBlank(blank)
    case ArrayValue(es) => ValidElements(es)
    case EmptyObject(blank) => IsBlank(blank)
    case ObjectValue(ps) => ValidPairs(ps)
  }

  predicate ValidElements(es: Elements) {
    IsBlank(es.before) && Valid(es.v) && IsBlank(es.after) && (es.rest.Then? ==> ValidElements(es.rest.more))
  }

  predicate ValidPairs(ps: Pairs) {
    IsBlank(ps.a) && ValidPieces(ps.key) && IsBlank(ps.b) && IsBlank(ps.c) && Valid(ps.v) && IsBlank(ps.d) &&
    (ps.rest.ThenPair? ==> ValidPairs(ps.rest.more))
  }

  function Text(v: Value): Bytes {
    match v
    case NullValue => NULL_WORD
    case TrueValue => TRUE_WORD
    case FalseValue => FALSE_WORD
    case NumberValue(n) => NumberText(n)
    case StringValue(ps) => StringText(ps)
    case EmptyArray(blank) => [OPEN_ARRAY] + (blank + [CLOSE_ARRAY])
    case ArrayValue(es) => [OPEN_ARRAY] + ElementsText(es)
    case EmptyObject(blank) => [OPEN_OBJECT] + (blank + [CLOSE_OBJECT])
    case ObjectValue(ps) => [OPEN_OBJECT] + PairsText(ps)
  }

  /** The elements up to and including the closing bracket. */
  function ElementsText(es: Elements): Bytes {
    es.before + (Text(es.v) + (es.after + MoreElementsText(es.rest)))
  }

  function MoreElementsText(m: MoreElements): Bytes {
    match m
    case NoElement => [CLOSE_ARRAY]
    case Then(es) => [COMMA] + ElementsText(es)
  }

  function PairsText(ps: Pairs): Bytes {
    ps.a + (StringText(ps.key) + (ps.b + ([COLON] + (ps.c + (Text(ps.v) + (ps.d + MorePairsText(ps.rest)))))))
  }

  function MorePairsText(m: MorePairs): Bytes {
    match m
    case NoPair => [CLOSE_OBJECT]
    case ThenPair(ps) => [COMMA] + PairsText(ps)
  }

  /** The document tree, unless some number is out of range. */
  function Meaning(v: Value, conv: Conversion): Option<Tree>
    requires Valid(v)
  {
    match v
    case NullValue => Some(Null)
    case TrueValue => Some(Bool(true))
    case FalseValue => Some(Bool(false))
    case NumberValue(n) => NumberMeaning(n, conv)
    case StringValue(ps) => Some(String(PiecesMeaning(ps)))
    case EmptyArray(_) => Some(Array([]))
    case ArrayValue(es) =>
      (match ElementsMeaning(es, conv)
       case None => None
       case Some(ts) => Some(Array(ts)))
    case EmptyObject(_) => Some(Object([]))
    case ObjectValue(ps) =>
      (match PairsMeaning(ps, conv)
       case None => None
       case Some(ms) => Some(Object(ms)))
  }

  function ElementsMeaning(es: Elements, conv: Conversion): Option<seq<Tree>>
    requires ValidElements(es)
  {
    match Meaning(es.v, conv)
    case None => None
    case Some(t) =>
      match es.rest
      case NoElement => Some([t])
      case Then(more) =>
        match ElementsMeaning(more, conv)
        case None => None
        case Some(ts) => Some([t] + ts)
  }

  function PairsMeaning(ps: Pairs, conv: Conversion): Option<seq<Member>>
    requires ValidPairs(ps)
  {
    match Meaning(ps.v, conv)
    case None => None
    case Some(t) =>
      var m := Member(PiecesMeaning(ps.key), t);
      match ps.rest
      case NoPair => Some([m])
      case ThenPair(more) =>
        match PairsMeaning(more, conv)
        case None => None
        case Some(ms) => Some([m] + ms)
  }
}
