/** Dumping a document and parsing the text again. */
module DumpAndParse {
  import opened Options
  import opened Binary64
  import opened Json
  import opened Sentinel
  import opened Quote
  import opened Printer
  import opened CutObjects
  import opened RoundTrip
  import opened WriteBuffer
  import opened EiselLemire
  import opened FloatingFast
  import opened NumberScan
  import opened NumberValue
  import opened NumberDouble
  import opened Serializer
  import Handler
  import Unescape
  import Document

  /** The serializer and then the parser: neither fails, and the root of the new document is the tree
      that was printed. */
  method PrintAndParse(wb: WriteBuffer, n: SNode, style: Style, ftoa: Ftoa, beyond: Bytes, round: Rounding,
      odd: Conversion) returns (serError: SerError, error: Unescape.Error, buf: array<byte>, root: Handler.Node)
    requires wb.Valid() && Clean(n, style, ftoa, Ieee(odd)) && |beyond| == Unescape.VEC_LEN && ShortNumbers(ftoa)
    requires Sized(|Print(n, style, ftoa)|)
    modifies wb, wb.buf
    ensures serError == SerNone && error == Unescape.NoError && Handler.Denotes(buf[..], root, TreeOf(n))
  {
    hide Clean, Proper, Print, Cut, Fits, TreeOf, Ieee, Handler.Denotes, IsTextOf, ShortNumbers;
    CleanIsFinite(n, style, ftoa, Ieee(odd));
    ShortFits(n, style, ftoa);
    CutNothing(n);
    serError := SerializeImpl(wb, n, style, ftoa, beyond);
    var text := wb.buf[..wb.top];
    PrintedText(n, style, ftoa, Ieee(odd));
    error, buf, root := Document.Parse(text, round, odd);
  }

  /** The parser reads a double back from every literal, with a point or an exponent, whose nearest double it is:
      from the shortest one as from any longer one. */
  lemma NearestReadsBack(bits: nat, b: nat, m: Number, ftoa: Ftoa, odd: Conversion)
    requires ValidNumber(m) && !IsInteger(m) && Convertible(m)
    requires b < INFINITY && bits == Signed(b, Sign(m.neg)) && Nearest(Magnitude(m), b)
    requires ftoa(bits) == Some(NumberText(m))
    ensures ReadsBack(bits, ftoa, Ieee(odd))
  {
    hide ValidNumber, NumberText, Convertible, Magnitude, Nearest, Ieee;
    ConvertedIs(odd, m);
    NearestUnique(Magnitude(m), b, NearestOf(Magnitude(m)));
    assert Ieee(odd)(NumberText(m)) == Some(bits);
  }
}
