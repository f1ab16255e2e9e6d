/** How a string is spelled, byte by byte and character by character, and that this is what is written. */
module Spelling {
  import opened Json
  import opened Quote
  import opened Characters
  import Ascii

  function HexOf(d: nat, upper: bool): byte
    requires d < 16
  {
    Ascii.Text(if upper then Ascii.UPPER_HEX else Ascii.LOWER_HEX)[d]
  }

  function Hex4Of(u: nat, upper: bool): Bytes
    requires u < 0x10000
  {
    [HexOf(u / 0x1000, upper), HexOf(u / 0x100 % 16, upper), HexOf(u / 0x10 % 16, upper), HexOf(u % 16, upper)]
  }

  /** Two letters for the quote, the backslash and five of the controls, six for the other controls; any other
      byte stands for itself. */
  function SpelledByte(c: byte, upper: bool): Bytes {
    if c == '\"' as int then Ascii.Text("\\\"")
    else if c == '\\' as int then Ascii.Text("\\\\")
    else if c == 8 then Ascii.Text("\\b")
    else if c == '\t' as int then Ascii.Text("\\t")
    else if c == '\n' as int then Ascii.Text("\\n")
    else if c == 12 then Ascii.Text("\\f")
    else if c == '\r' as int then Ascii.Text("\\r")
    else if c < 0x20 then Ascii.Text("\\u") + Hex4Of(c, upper)
    else [c]
  }

  /** Twelve letters for a four-byte character: its UTF-16 code units. */
  function SpelledPair(s: Bytes, upper: bool): Bytes
    requires |s| == 4 && IsCharacter(s)
  {
    Supplementary(s);
    var u := PointOf(s) - 0x10000;
    Ascii.Text("\\u") + Hex4Of(0xD800 + u / 0x400, upper) + (Ascii.Text("\\u") + Hex4Of(0xDC00 + u % 0x400, upper))
  }

  lemma Supplementary(s: Bytes)
    requires |s| == 4 && IsCharacter(s)
    ensures 0x10000 <= PointOf(s) < 0x110000
  {
    MoreBytes(s[0] - 0xF0, s[1] - 0x80, s[2] - 0x80, s[3] - 0x80);
    EmojiSum(s[0] - 0xF0, s[1] - 0x80, s[2] - 0x80, s[3] - 0x80);
    assert s == [s[0], s[1], s[2], s[3]];
    hide PointOf, Utf8;
  }

  function Spelled(s: Bytes, style: Style): Bytes
    decreases |s|
  {
    if s == [] then []
    else if style.emoji && CharSize(s) == 4 then
      FirstCharacter(s);
      SpelledPair(s[..4], style.upper) + Spelled(s[4..], style)
    else SpelledByte(s[0], style.upper) + Spelled(s[1..], style)
  }

  lemma FirstCharacter(s: Bytes)
    requires CharSize(s) == 4
    ensures IsCharacter(s[..4]) && PointOf(s[..4]) == PointOf([s[0], s[1], s[2], s[3]])
  {
    assert s[..4] == [s[0], s[1], s[2], s[3]];
  }

  // ---- what is written ----

  lemma HexIs(u: nat, upper: bool)
    requires u < 0x10000
    ensures Hex(u, upper) == Hex4Of(u, upper)
  {
    HexCharIs(u / 0x1000, upper);
    HexCharIs(u / 0x100 % 16, upper);
    HexCharIs(u / 0x10 % 16, upper);
    HexCharIs(u % 16, upper);
    hide HexChar, HexOf;
  }

  lemma HexCharIs(d: nat, upper: bool)
    requires d < 16
    ensures HexChar(d, upper) == HexOf(d, upper)
  {}

  lemma ByteIs(s: Bytes, style: Style)
    requires s != [] && !(style.emoji && s[0] >= 0xF0)
    ensures Taken(s, style) == 1 && PieceText(FirstPiece(s, style)) == SpelledByte(s[0], style.upper)
  {
    hide Hex, Hex4Of;
    HexIs(s[0], style.upper);
  }

  lemma PairIs(s: Bytes, style: Style)
    requires style.emoji && CharSize(s) == 4
    ensures Taken(s, style) == 4 && IsCharacter(s[..4])
    ensures PieceText(FirstPiece(s, style)) == SpelledPair(s[..4], style.upper)
  {
    hide Hex, Hex4Of, EmojiBits, PointOf, HighHalf, LowHalf;
    FirstCharacter(s);
    Supplementary(s[..4]);
    PairBits(s);
    var u := EmojiBits(s[0], s[1], s[2], s[3]);
    HexIs(HighHalf(u), style.upper);
    HexIs(LowHalf(u), style.upper);
  }

  lemma PairBits(s: Bytes)
    requires CharSize(s) == 4
    ensures var u := EmojiBits(s[0], s[1], s[2], s[3]);
            PointOf(s[..4]) == u + 0x10000 && HighHalf(u) == 0xD800 + u / 0x400 && LowHalf(u) == 0xDC00 + u % 0x400
  {
    hide EmojiBits, PointOf;
    MoreBytes(s[0] - 0xF0, s[1] - 0x80, s[2] - 0x80, s[3] - 0x80);
    EmojiSum(s[0] - 0xF0, s[1] - 0x80, s[2] - 0x80, s[3] - 0x80);
    FirstCharacter(s);
  }

  lemma FirstText(s: Bytes, style: Style)
    requires s != []
    ensures PiecesText(Pieces(s, style)) ==
            PieceText(FirstPiece(s, style)) + PiecesText(Pieces(s[Taken(s, style)..], style))
  {
    hide FirstPiece, PieceText, Taken;
    PiecesCons(s, style);
    var rest := Pieces(s[Taken(s, style)..], style);
    assert ([FirstPiece(s, style)] + rest)[1..] == rest;
  }

  /** Without emoji escaping, every byte string is written like that. */
  lemma {:induction false} WrittenIsSpelled(s: Bytes, style: Style)
    requires !style.emoji
    ensures PiecesText(Pieces(s, style)) == Spelled(s, style)
    decreases |s|
  {
    hide Pieces, PieceText, FirstPiece, SpelledByte;
    if s == [] {
      NoPieces(style);
    } else {
      FirstText(s, style);
      ByteIs(s, style);
      WrittenIsSpelled(s[1..], style);
    }
  }

  /** With it, every valid UTF-8 string is; of s the first k bytes belong to a character before. */
  lemma {:induction false} WrittenFrom(s: Bytes, k: nat, style: Style)
    requires style.emoji && k <= |s| && (forall i :: 0 <= i < k ==> IsTail(s[i])) && ValidUtf8(s[k..])
    ensures PiecesText(Pieces(s, style)) == Spelled(s, style)
    decreases |s|
  {
    hide Pieces, PieceText, FirstPiece, SpelledByte, SpelledPair;
    if s == [] {
      NoPieces(style);
    } else if k > 0 {
      FirstText(s, style);
      ByteIs(s, style);
      assert s[1..][k - 1..] == s[k..];
      WrittenFrom(s[1..], k - 1, style);
    } else {
      assert s[0..] == s;
      FirstText(s, style);
      var n := CharSize(s);
      if n == 4 {
        PairIs(s, style);
        assert s[4..][0..] == s[4..];
        WrittenFrom(s[4..], 0, style);
      } else {
        ByteIs(s, style);
        assert s[1..][n - 1..] == s[n..];
        WrittenFrom(s[1..], n - 1, style);
      }
    }
  }

  lemma EmojiIsSpelled(s: Bytes, style: Style)
    requires style.emoji && ValidUtf8(s)
    ensures PiecesText(Pieces(s, style)) == Spelled(s, style)
  {
    hide Pieces, PiecesText, Spelled;
    assert s[0..] == s;
    WrittenFrom(s, 0, style);
  }

  // ---- what emoji escaping is for ----

  /** No byte of a four-byte character is left. */
  lemma {:induction false} NoEmojiLeft(s: Bytes, k: nat, style: Style)
    requires style.emoji && k <= |s| && (forall i :: 0 <= i < k ==> IsTail(s[i])) && ValidUtf8(s[k..])
    ensures forall b :: b in Spelled(s, style) ==> b < 0xF0
    decreases |s|
  {
    hide SpelledByte, SpelledPair;
    if s != [] {
      if k > 0 {
        SmallByte(s[0], style.upper);
        assert s[1..][k - 1..] == s[k..];
        NoEmojiLeft(s[1..], k - 1, style);
      } else {
        assert s[0..] == s;
        var n := CharSize(s);
        if n == 4 {
          FirstCharacter(s);
          SmallPair(s[..4], style.upper);
          assert s[4..][0..] == s[4..];
          NoEmojiLeft(s[4..], 0, style);
        } else {
          SmallByte(s[0], style.upper);
          assert s[1..][n - 1..] == s[n..];
          NoEmojiLeft(s[1..], n - 1, style);
        }
      }
    }
  }

  lemma SmallByte(c: byte, upper: bool)
    requires c < 0xF0
    ensures forall b :: b in SpelledByte(c, upper) ==> b < 0xF0
  {
    hide HexOf;
    if c < 0x20 {
      SmallHex(c, upper);
    }
  }

  lemma SmallHex(u: nat, upper: bool)
    requires u < 0x10000
    ensures forall b :: b in Hex4Of(u, upper) ==> b < 128
  {
    hide HexOf;
    SmallDigit(u / 0x1000, upper);
    SmallDigit(u / 0x100 % 16, upper);
    SmallDigit(u / 0x10 % 16, upper);
    SmallDigit(u % 16, upper);
  }

  lemma SmallDigit(d: nat, upper: bool)
    requires d < 16
    ensures HexOf(d, upper) < 128
  {}

  lemma SmallPair(s: Bytes, upper: bool)
    requires |s| == 4 && IsCharacter(s)
    ensures forall b :: b in SpelledPair(s, upper) ==> b < 0xF0
  {
    hide Hex4Of, PointOf, CharSize;
    Supplementary(s);
    var u := PointOf(s) - 0x10000;
    SmallHex(0xD800 + u / 0x400, upper);
    SmallHex(0xDC00 + u % 0x400, upper);
  }

  lemma EmojiGone(s: Bytes, style: Style)
    requires style.emoji && ValidUtf8(s)
    ensures forall b :: b in PiecesText(Pieces(s, style)) ==> b < 0xF0
  {
    hide Pieces, PiecesText, Spelled;
    assert s[0..] == s;
    EmojiIsSpelled(s, style);
    NoEmojiLeft(s, 0, style);
  }
}
