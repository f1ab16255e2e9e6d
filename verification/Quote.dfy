/** Writing a string literal: which bytes are escaped and how, block-wise and byte by byte, and that the
    reader gets the string back. */
module Quote {
  import opened Options
  import opened Json

  /** Escape four-byte characters as surrogate pairs; hex digits in upper case. */
  datatype Style = Style(emoji: bool, upper: bool)

  predicate NeedEscaped(c: byte) { c < 0x20 || c == QUOTE || c == BACKSLASH }

  function HexChar(d: nat, upper: bool): byte
    requires d < 16
  {
    if d < 10 then ZERO + d else (if upper then 0x41 else 0x61) + (d - 10)
  }

  function Hex(u: nat, upper: bool): (h: Bytes)
    requires u < 0x10000
    ensures |h| == 4
  {
    [HexChar(u / 0x1000, upper), HexChar(u / 0x100 % 16, upper), HexChar(u / 0x10 % 16, upper), HexChar(u % 16, upper)]
  }

  lemma HexReads(u: nat, upper: bool)
    requires u < 0x10000
    ensures IsHex4(Hex(u, upper)) && Hex4(Hex(u, upper)) == u
  {
    HexCharReads(u / 0x1000, upper);
    HexCharReads(u / 0x100 % 16, upper);
    HexCharReads(u / 0x10 % 16, upper);
    HexCharReads(u % 16, upper);
    hide HexDigit, HexChar;
    FourDigits(u);
  }

  lemma HexCharReads(d: nat, upper: bool)
    requires d < 16
    ensures HexDigit(HexChar(d, upper)) == Some(d)
  {}

  lemma FourDigits(u: nat)
    requires u < 0x10000
    ensures u / 0x1000 * 0x1000 + u / 0x100 % 16 * 0x100 + u / 0x10 % 16 * 0x10 + u % 16 == u
  {
    assert u / 0x100 == u / 0x1000 * 16 + u / 0x100 % 16;
    assert u / 0x10 == u / 0x100 * 16 + u / 0x10 % 16;
  }

  /** The two-letter escapes the writer uses. */
  function ShortEscape(c: byte): Option<byte> {
    if c == 0x08 then Some(0x62)
    else if c == 0x09 then Some(0x74)
    else if c == 0x0a then Some(0x6e)
    else if c == 0x0c then Some(0x66)
    else if c == 0x0d then Some(0x72)
    else if c == QUOTE || c == BACKSLASH then Some(c)
    else None
  }

  function EscapePiece(c: byte, style: Style): Piece
    requires NeedEscaped(c)
  {
    match ShortEscape(c) case Some(e) => Short(e) case None => Unicode(Hex(c, style.upper))
  }

  /** The bits of four bytes taken as a four-byte character, less 0x10000, in 32 bits. */
  function EmojiBits(a: byte, b: byte, c: byte, d: byte): (u: nat)
    ensures u < 0x1_0000_0000
  {
    (a % 8 * 0x40000 + b % 64 * 0x1000 + c % 64 * 0x40 + d % 64 - 0x10000) % 0x1_0000_0000
  }

  function EmojiPiece(a: byte, b: byte, c: byte, d: byte, style: Style): Piece {
    var u := EmojiBits(a, b, c, d);
    Surrogates(Hex(HighHalf(u), style.upper), Hex(LowHalf(u), style.upper))
  }

  predicate IsEmoji(c: byte, style: Style) { style.emoji && c >= 0xF0 }

  /** How many bytes the next piece takes. */
  function Taken(s: Bytes, style: Style): (n: nat)
    requires s != []
    ensures 1 <= n <= |s|
  {
    if !NeedEscaped(s[0]) && IsEmoji(s[0], style) && |s| >= 4 then 4 else 1
  }

  function FirstPiece(s: Bytes, style: Style): Piece
    requires s != []
  {
    if NeedEscaped(s[0]) then EscapePiece(s[0], style)
    else if IsEmoji(s[0], style) && |s| >= 4 then EmojiPiece(s[0], s[1], s[2], s[3], style)
    else Plain(s[0])
  }

  /** The literal of s as the grammar sees it. */
  function Pieces(s: Bytes, style: Style): seq<Piece>
    decreases |s|
  {
    if s == [] then [] else [FirstPiece(s, style)] + Pieces(s[Taken(s, style)..], style)
  }

  function HighHalf(u: nat): (h: nat)
    ensures IsHigh(h)
  {
    0xD800 + u / 0x400 % 0x400
  }

  function LowHalf(u: nat): (l: nat)
    ensures IsLow(l)
  {
    0xDC00 + u % 0x400
  }

  lemma PairValid(u: nat, style: Style)
    ensures var h, l := Hex(HighHalf(u), style.upper), Hex(LowHalf(u), style.upper);
            ValidPiece(Surrogates(h, l)) && Hex4(h) == HighHalf(u) && Hex4(l) == LowHalf(u) &&
            |PieceText(Surrogates(h, l))| == 12 &&
            PieceMeaning(Surrogates(h, l)) == Utf8(PairPoint(HighHalf(u), LowHalf(u)))
  {
    hide Hex, Hex4, Utf8, PairPoint;
    HexReads(HighHalf(u), style.upper);
    HexReads(LowHalf(u), style.upper);
  }

  lemma EscapeValid(c: byte, style: Style)
    requires NeedEscaped(c)
    ensures var p := EscapePiece(c, style);
            ValidPiece(p) && PieceMeaning(p) == [c] && |PieceText(p)| <= 6
  {
    hide Hex, Hex4;
    HexReads(c, style.upper);
  }

  lemma FirstPieceValid(s: Bytes, style: Style)
    requires s != []
    ensures ValidPiece(FirstPiece(s, style))
    ensures |PieceText(FirstPiece(s, style))| <= if Taken(s, style) == 4 then 12 else 6
  {
    hide ValidPiece, EscapePiece, PieceText, EmojiBits, Hex;
    var c := s[0];
    if NeedEscaped(c) {
      EscapeValid(c, style);
    } else if IsEmoji(c, style) && |s| >= 4 {
      PairValid(EmojiBits(s[0], s[1], s[2], s[3]), style);
    } else {
      PlainValid(c);
    }
  }

  lemma PlainValid(c: byte)
    requires !NeedEscaped(c)
    ensures ValidPiece(Plain(c)) && PieceMeaning(Plain(c)) == [c] && |PieceText(Plain(c))| == 1
  {}

  lemma {:induction false} PiecesValid(s: Bytes, style: Style)
    ensures ValidPieces(Pieces(s, style)) && |PiecesText(Pieces(s, style))| <= 6 * |s|
    decreases |s|
  {
    hide PieceText, ValidPiece, FirstPiece;
    if s != [] {
      var p, rest := FirstPiece(s, style), Pieces(s[Taken(s, style)..], style);
      FirstPieceValid(s, style);
      PiecesValid(s[Taken(s, style)..], style);
      assert ([p] + rest)[1..] == rest;
    }
  }

  /** The reader gives back every byte string when four-byte characters are left alone. */
  lemma {:induction false} Unquote(s: Bytes, style: Style)
    requires !style.emoji
    ensures ValidPieces(Pieces(s, style)) && PiecesMeaning(Pieces(s, style)) == s
    decreases |s|
  {
    hide FirstPiece, PieceMeaning, ValidPiece;
    if s != [] {
      Unquote(s[1..], style);
      PlainMeaning(s, style);
      assert s[..1] == [s[0]];
      ConsMeaning(s, style);
    }
  }

  lemma PlainMeaning(s: Bytes, style: Style)
    requires s != [] && Taken(s, style) == 1
    ensures ValidPiece(FirstPiece(s, style)) && PieceMeaning(FirstPiece(s, style)) == [s[0]]
  {
    hide ValidPiece, EscapePiece, PieceMeaning, EmojiPiece;
    if NeedEscaped(s[0]) {
      EscapeValid(s[0], style);
    } else {
      PlainValid(s[0]);
    }
  }

  // ---- four-byte characters ----

  predicate IsTail(c: byte) { 0x80 <= c < 0xC0 }

  /** The bytes of the next character of s (section 4 of RFC 3629), 0 if there is none. */
  function CharSize(s: Bytes): (n: nat)
    ensures n <= 4 && n <= |s|
  {
    if |s| >= 1 && s[0] < 0x80 then 1
    else if |s| >= 2 && 0xC2 <= s[0] < 0xE0 && IsTail(s[1]) then 2
    else if |s| >= 3 && 0xE0 <= s[0] < 0xF0 && IsTail(s[1]) && IsTail(s[2]) &&
            (s[0] == 0xE0 ==> s[1] >= 0xA0) && (s[0] == 0xED ==> s[1] < 0xA0) then 3
    else if |s| >= 4 && 0xF0 <= s[0] <= 0xF4 && IsTail(s[1]) && IsTail(s[2]) && IsTail(s[3]) &&
            (s[0] == 0xF0 ==> s[1] >= 0x90) && (s[0] == 0xF4 ==> s[1] < 0x90) then 4
    else 0
  }

  predicate ValidUtf8(s: Bytes)
    decreases |s|
  {
    s == [] || (CharSize(s) > 0 && ValidUtf8(s[CharSize(s)..]))
  }

  /** A four-byte character survives its surrogate pair. */
  lemma EmojiMeaning(s: Bytes, style: Style)
    requires CharSize(s) == 4 && IsEmoji(s[0], style)
    ensures Taken(s, style) == 4
    ensures ValidPiece(FirstPiece(s, style)) && PieceMeaning(FirstPiece(s, style)) == s[..4]
  {
    hide ValidPiece, PieceMeaning, PieceText, Hex, Utf8, PairPoint, HighHalf, LowHalf, EmojiBits, EscapePiece;
    var a, b, c, d := s[0] - 0xF0, s[1] - 0x80, s[2] - 0x80, s[3] - 0x80;
    EmojiPoint(a, b, c, d);
    PairValid(EmojiBits(s[0], s[1], s[2], s[3]), style);
    assert s[..4] == [s[0], s[1], s[2], s[3]];
  }

  lemma EmojiPoint(a: nat, b: nat, c: nat, d: nat)
    requires a < 5 && b < 0x40 && c < 0x40 && d < 0x40 && (a == 0 ==> b >= 0x10) && (a == 4 ==> b < 0x10)
    ensures var u := EmojiBits(0xF0 + a, 0x80 + b, 0x80 + c, 0x80 + d);
            Utf8(PairPoint(HighHalf(u), LowHalf(u))) == [0xF0 + a, 0x80 + b, 0x80 + c, 0x80 + d]
  {
    EmojiSum(a, b, c, d);
    hide EmojiBits, Utf8, PairPoint, HighHalf, LowHalf;
    var u := EmojiBits(0xF0 + a, 0x80 + b, 0x80 + c, 0x80 + d);
    Halves(u);
    Utf8Four(a, b, c, d);
  }

  lemma EmojiSum(a: nat, b: nat, c: nat, d: nat)
    requires a < 5 && b < 0x40 && c < 0x40 && d < 0x40 && (a == 0 ==> b >= 0x10) && (a == 4 ==> b < 0x10)
    ensures EmojiBits(0xF0 + a, 0x80 + b, 0x80 + c, 0x80 + d) == a * 0x40000 + b * 0x1000 + c * 0x40 + d - 0x10000
    ensures 0x10000 <= a * 0x40000 + b * 0x1000 + c * 0x40 + d < 0x110000
  {}

  lemma Utf8Four(a: nat, b: nat, c: nat, d: nat)
    requires a < 5 && b < 0x40 && c < 0x40 && d < 0x40
    requires 0x10000 <= a * 0x40000 + b * 0x1000 + c * 0x40 + d < 0x110000
    ensures Utf8(a * 0x40000 + b * 0x1000 + c * 0x40 + d) == [0xF0 + a, 0x80 + b, 0x80 + c, 0x80 + d]
  {
    FourBytes(a, b, c, d);
  }

  lemma Halves(u: nat)
    requires u < 0x100000
    ensures PairPoint(HighHalf(u), LowHalf(u)) == u + 0x10000
  {
    assert u / 0x400 < 0x400;
  }

  lemma FourBytes(a: nat, b: nat, c: nat, d: nat)
    requires a < 5 && b < 0x40 && c < 0x40 && d < 0x40
    ensures var cp := a * 0x40000 + b * 0x1000 + c * 0x40 + d;
            cp / 0x40000 == a && cp / 0x1000 % 0x40 == b && cp / 0x40 % 0x40 == c && cp % 0x40 == d
  {
    var cp := a * 0x40000 + b * 0x1000 + c * 0x40 + d;
    assert cp / 0x40 == a * 0x1000 + b * 0x40 + c;
    assert cp / 0x1000 == a * 0x40 + b;
  }

  lemma MeaningCons(p: Piece, ps: seq<Piece>)
    requires ValidPiece(p) && ValidPieces(ps)
    ensures ValidPieces([p] + ps) && PiecesMeaning([p] + ps) == PieceMeaning(p) + PiecesMeaning(ps)
  {
    hide ValidPiece, PieceMeaning;
    assert ([p] + ps)[1..] == ps;
  }

  lemma PiecesCons(s: Bytes, style: Style)
    requires s != []
    ensures Pieces(s, style) == [FirstPiece(s, style)] + Pieces(s[Taken(s, style)..], style)
  {
    hide FirstPiece, Taken;
  }

  /** One piece more. */
  lemma ConsMeaning(s: Bytes, style: Style)
    requires s != [] && var rest := s[Taken(s, style)..];
             ValidPieces(Pieces(rest, style)) && PiecesMeaning(Pieces(rest, style)) == rest
    requires ValidPiece(FirstPiece(s, style)) && PieceMeaning(FirstPiece(s, style)) == s[..Taken(s, style)]
    ensures ValidPieces(Pieces(s, style)) && PiecesMeaning(Pieces(s, style)) == s
  {
    hide FirstPiece, PieceMeaning, ValidPiece, Taken, Pieces, PiecesMeaning, ValidPieces;
    var n := Taken(s, style);
    PiecesCons(s, style);
    MeaningCons(FirstPiece(s, style), Pieces(s[n..], style));
    assert s == s[..n] + s[n..];
  }

  /** The reader gives back every valid UTF-8 string, whatever the style. */
  lemma {:induction false} UnquoteUtf8(s: Bytes, style: Style)
    requires ValidUtf8(s)
    ensures ValidPieces(Pieces(s, style)) && PiecesMeaning(Pieces(s, style)) == s
    decreases |s|
  {
    hide Pieces, FirstPiece, PieceMeaning, ValidPiece, PiecesMeaning;
    if s == [] {
      NoPieces(style);
    } else {
      var n := CharSize(s);
      UnquoteUtf8(s[n..], style);
      if n == 4 && style.emoji {
        EmojiMeaning(s, style);
        ConsMeaning(s, style);
      } else {
        SmallChar(s, style, n);
      }
    }
  }

  lemma NoPieces(style: Style)
    ensures Pieces([], style) == [] && PiecesMeaning([]) == []
  {}

  /** The bytes of a character that is not escaped as a pair are written one by one. */
  lemma {:induction false} SmallChar(s: Bytes, style: Style, k: nat)
    requires k <= |s| && forall i :: 0 <= i < k ==> !IsEmoji(s[i], style)
    requires ValidPieces(Pieces(s[k..], style)) && PiecesMeaning(Pieces(s[k..], style)) == s[k..]
    ensures ValidPieces(Pieces(s, style)) && PiecesMeaning(Pieces(s, style)) == s
    decreases k
  {
    hide Pieces, FirstPiece, PieceMeaning, ValidPiece, PiecesMeaning;
    if k == 0 {
      assert s[0..] == s;
    } else {
      assert s[1..][k - 1..] == s[k..];
      SmallChar(s[1..], style, k - 1);
      assert Taken(s, style) == 1;
      PlainMeaning(s, style);
      assert s[..1] == [s[0]];
      ConsMeaning(s, style);
    }
  }
}
