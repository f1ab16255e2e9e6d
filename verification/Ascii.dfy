/** The bytes of the grammar as characters. */
module Ascii {
  import opened Options
  import opened Json

  function Text(s: string): (t: Bytes)
    requires forall k :: 0 <= k < |s| ==> s[k] < 128 as char
    ensures |t| == |s| && forall k :: 0 <= k < |s| ==> t[k] == s[k] as int
  {
    seq(|s|, k requires 0 <= k < |s| => s[k] as int)
  }

  /** Section 2 of RFC 8259: punctuation, white space, literal names; section 6: numbers. */
  lemma Tokens()
    ensures [OPEN_ARRAY, OPEN_OBJECT, CLOSE_ARRAY, CLOSE_OBJECT, COLON, COMMA] == Text("[{]}:,")
    ensures [QUOTE, BACKSLASH] == Text("\"\\") && [ZERO, MINUS, PLUS, DOT] == Text("0-+.")
    ensures NULL_WORD == Text("null") && TRUE_WORD == Text("true") && FALSE_WORD == Text("false")
    ensures forall c: byte :: IsSpace(c) <==> c in Text(" \t\n\r")
    ensures forall c: byte :: IsDigit(c) <==> c in Text("0123456789")
    ensures forall c: byte :: IsExpMark(c) <==> c in Text("eE")
  {
    var blanks, digits, marks := Text(" \t\n\r"), Text("0123456789"), Text("eE");
    assert blanks == [0x20, 0x09, 0x0a, 0x0d] && marks == [0x65, 0x45];
    assert digits == [0x30, 0x31, 0x32, 0x33, 0x34, 0x35, 0x36, 0x37, 0x38, 0x39];
  }

  const LOWER_HEX := "0123456789abcdef"
  const UPPER_HEX := "0123456789ABCDEF"

  /** Section 7: the hex digits and the two-letter escapes. */
  lemma HexDigits(d: nat)
    requires d < 16
    ensures HexDigit(Text(LOWER_HEX)[d]) == HexDigit(Text(UPPER_HEX)[d]) == Some(d)
  {}

  lemma OnlyHexDigits(c: byte)
    requires HexDigit(c).Some?
    ensures c == Text(LOWER_HEX)[HexDigit(c).value] || c == Text(UPPER_HEX)[HexDigit(c).value]
  {}

  lemma Escapes()
    ensures var letters, bytes := Text("\"\\/bfnrt"), [0x22, 0x5c, 0x2f, 8, 12, 10, 13, 9];
            (forall k :: 0 <= k < 8 ==> Unescape(letters[k]) == Some(bytes[k])) &&
            (forall c: byte :: Unescape(c).Some? ==> c in letters)
  {
    assert Text("\"\\/bfnrt") == [0x22, 0x5c, 0x2f, 0x62, 0x66, 0x6e, 0x72, 0x74];
  }
}
