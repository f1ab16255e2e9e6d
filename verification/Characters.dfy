/** What the UTF-8 encoding is: it can be read back, and nothing else is well-formed. */
module Characters {
  import opened Json
  import opened Quote

  /** A Unicode scalar value. */
  predicate IsScalar(c: nat) { c < 0x110000 && !IsHigh(c) && !IsLow(c) }

  predicate IsCharacter(s: Bytes) { s != [] && CharSize(s) == |s| }

  /** The low bits of a byte. */
  function Bits(b: byte, n: nat): nat
    requires n > 0
  {
    b % n
  }

  /** The scalar value of a character: the bits behind the length mark of the lead byte, then six of each tail
      byte (section 3 of RFC 3629). */
  function PointOf(s: Bytes): nat
    requires 1 <= |s| <= 4
  {
    if |s| == 1 then s[0]
    else if |s| == 2 then 0x40 * Bits(s[0], 0x20) + Bits(s[1], 0x40)
    else if |s| == 3 then 0x1000 * Bits(s[0], 0x10) + 0x40 * Bits(s[1], 0x40) + Bits(s[2], 0x40)
    else 0x40000 * Bits(s[0], 8) + 0x1000 * Bits(s[1], 0x40) + 0x40 * Bits(s[2], 0x40) + Bits(s[3], 0x40)
  }

  /** Every scalar value is encoded as one character, from which it can be read. */
  lemma EncodedReads(c: nat)
    requires IsScalar(c)
    ensures IsCharacter(Utf8(c)) && ValidUtf8(Utf8(c)) && PointOf(Utf8(c)) == c
  {
    hide Utf8, CharSize, PointOf;
    var b, d := c % 0x40, c / 0x40;
    if c < 0x80 {
      OneByte(c);
    } else if c < 0x800 {
      TwoBytes(d, b);
    } else if c < 0x10000 {
      ThreeBytes(d / 0x40, d % 0x40, b);
    } else {
      Sixths(d);
      MoreBytes(d / 0x1000, d / 0x40 % 0x40, d % 0x40, b);
    }
    OneCharacter(Utf8(c));
  }

  lemma OneCharacter(s: Bytes)
    requires IsCharacter(s)
    ensures ValidUtf8(s)
  {
    hide CharSize;
    assert s[|s|..] == [];
  }

  lemma Sixths(d: nat)
    ensures d == 0x1000 * (d / 0x1000) + 0x40 * (d / 0x40 % 0x40) + d % 0x40
  {
    assert d / 0x40 == 0x40 * (d / 0x1000) + d / 0x40 % 0x40;
  }

  /** Every character is the encoding of a scalar value. */
  lemma ReadEncodes(s: Bytes)
    requires IsCharacter(s)
    ensures IsScalar(PointOf(s)) && Utf8(PointOf(s)) == s
  {
    hide Utf8, PointOf;
    if |s| == 1 {
      OneByte(s[0]);
      assert s == [s[0]];
    } else if |s| == 2 {
      TwoBytes(s[0] - 0xC0, s[1] - 0x80);
      assert s == [s[0], s[1]];
    } else if |s| == 3 {
      ThreeBytes(s[0] - 0xE0, s[1] - 0x80, s[2] - 0x80);
      assert s == [s[0], s[1], s[2]];
    } else {
      MoreBytes(s[0] - 0xF0, s[1] - 0x80, s[2] - 0x80, s[3] - 0x80);
      assert s == [s[0], s[1], s[2], s[3]];
    }
  }

  // Each length: the bytes, the scalar value, and that the one gives the other.

  lemma OneByte(c: nat)
    requires c < 0x80
    ensures var s: Bytes := [c]; Utf8(c) == s && IsCharacter(s) && PointOf(s) == c
  {}

  lemma TwoBytes(a: nat, b: nat)
    requires 2 <= a < 0x20 && b < 0x40
    ensures var s: Bytes := [0xC0 + a, 0x80 + b];
            Utf8(0x40 * a + b) == s && IsCharacter(s) && PointOf(s) == 0x40 * a + b
  {
    BitsOf(0xC0, 0x20, a);
    BitsOf(0x80, 0x40, b);
    hide Bits;
  }

  lemma BitsOf(mark: nat, n: nat, a: nat)
    requires (n == 8 && mark == 0xF0) || (n == 0x10 && mark == 0xE0) || (n == 0x20 && mark == 0xC0) ||
             (n == 0x40 && mark == 0x80)
    requires a < n
    ensures Bits(mark + a, n) == a
  {}

  lemma ThreeBytes(a: nat, b: nat, c: nat)
    requires a < 0x10 && b < 0x40 && c < 0x40 && (a == 0 ==> b >= 0x20) && (a == 0xD ==> b < 0x20)
    ensures var s: Bytes, p := [0xE0 + a, 0x80 + b, 0x80 + c], 0x1000 * a + 0x40 * b + c;
            p < 0x10000 && Utf8(p) == s && IsCharacter(s) && PointOf(s) == p && IsScalar(p)
  {
    var p := 0x1000 * a + 0x40 * b + c;
    assert p / 0x40 == 0x40 * a + b && p / 0x1000 == a && p % 0x40 == c;
    BitsOf(0xE0, 0x10, a);
    BitsOf(0x80, 0x40, b);
    BitsOf(0x80, 0x40, c);
    hide Bits;
  }

  lemma MoreBytes(a: nat, b: nat, c: nat, d: nat)
    requires a < 5 && b < 0x40 && c < 0x40 && d < 0x40 && (a == 0 ==> b >= 0x10) && (a == 4 ==> b < 0x10)
    ensures var s: Bytes, p := [0xF0 + a, 0x80 + b, 0x80 + c, 0x80 + d], a * 0x40000 + b * 0x1000 + c * 0x40 + d;
            p < 0x110000 && Utf8(p) == s && IsCharacter(s) && PointOf(s) == p && IsScalar(p)
  {
    hide Utf8, EmojiBits, Bits;
    EmojiSum(a, b, c, d);
    Utf8Four(a, b, c, d);
    BitsOf(0xF0, 8, a);
    BitsOf(0x80, 0x40, b);
    BitsOf(0x80, 0x40, c);
    BitsOf(0x80, 0x40, d);
  }

  /** What a piece of a literal stands for is one byte or one character. */
  lemma PieceIsCharacter(p: Piece)
    requires ValidPiece(p)
    ensures |PieceMeaning(p)| == 1 || IsCharacter(PieceMeaning(p))
    ensures p.Unicode? ==> PointOf(PieceMeaning(p)) == Hex4(p.h)
    ensures p.Surrogates? ==>
              PointOf(PieceMeaning(p)) == 0x10000 + 0x400 * (Hex4(p.h) - 0xD800) + (Hex4(p.l) - 0xDC00)
  {
    hide Utf8, Hex4, CharSize, PointOf;
    match p {
      case Unicode(h) => EncodedReads(Hex4(h));
      case Surrogates(h, l) => EncodedReads(PairPoint(Hex4(h), Hex4(l)));
      case _ =>
    }
  }
}
