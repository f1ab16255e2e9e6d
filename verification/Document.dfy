/** Parsing a text: the padded copy, the node stack sized for it, the parser, the root node. */
module Document {
  import opened Options
  import opened Json
  import opened Sentinel
  import opened SkipSpace
  import opened Unescape
  import opened FloatingFast
  import opened NumberDouble
  import opened Handler
  import opened Pointer
  import opened OnDemand
  import opened OnDemandLookup
  import Parser

  /** A copy of the text with the end mark behind it; the rest of the padding is left as it is. */
  method AllocateStringBuffer(text: Bytes) returns (buf: array<byte>)
    ensures fresh(buf) && Padded(buf[..], |text|) && buf[..|text|] == text
  {
    buf := new byte[|text| + PADDING];
    forall k | 0 <= k < |text| {
      buf[k] := text[k];
    }
    buf[|text|] := 0x78;
    buf[|text| + 1] := QUOTE;
    buf[|text| + 2] := 0x78;
  }

  /** Accepts exactly the JSON texts of RFC 8259 whose numbers are in range, and the root node, with its
      strings in buf, is the tree that the grammar gives the text. */
  method Parse(text: Bytes, round: Rounding, odd: Conversion) returns (err: Error, buf: array<byte>, root: Node)
    requires Sized(|text|)
    ensures err == NoError <==> exists t :: IsTextOf(text, t, Ieee(odd))
    ensures forall t :: IsTextOf(text, t, Ieee(odd)) ==> Denotes(buf[..], root, t)
  {
    ghost var conv := Ieee(odd);
    hide Denotes, IsTextOf, ParseDocument, Padded, Stacked, Ieee;
    buf := AllocateStringBuffer(text);
    ghost var s := buf[..];
    var scan := new SkipScanner();
    var sax := new SAXHandler(|text|);
    var p := new Parser.Parser(buf, |text|, scan, sax, round, odd);
    Ready(buf, s, text, scan, sax, p);
    p.Parse(s);
    err := p.err;
    root := if err == NoError && |sax.st| > 0 then sax.st[0] else NullNode;
    forall t: Tree
      ensures ParseDocument(s, |text|, conv) == Some(t) <==> IsTextOf(text, t, conv)
    {
      DocumentExact(s, |text|, conv, t);
    }
    if err == NoError {
      assert IsTextOf(text, ParseDocument(s, |text|, conv).value, conv);
    }
  }

  lemma Ready(buf: array<byte>, s: Bytes, text: Bytes, scan: SkipScanner, sax: SAXHandler, p: Parser.Parser)
    requires s == buf[..] && Padded(s, |text|) && scan.bitsEnd == 0 && |sax.st| >= 16
    requires Stacked([], sax.st, sax.np, sax.parent, [])
    requires p.buf == buf && p.len == |text| && p.scan == scan && p.sax == sax && p.pos == 0
    ensures p.Between(s) && p.Stack([])
  {
    assert buf[..0] == [];
    assert buf[0..] == s[0..];
  }

  /** Parse only the value the path leads to.  For a text of a tree in which the lookup finds a value,
      this is that value; and on a path that does not stray the error tells why the lookup finds nothing. */
  method ParseOnDemand(text: Bytes, path: seq<Step>, round: Rounding, odd: Conversion)
    returns (failed: Option<QueryError>, err: Error, buf: array<byte>, root: Node)
    requires 0 < |text| && Sized(|text|)
    ensures failed == match Query(text, 0, path) case Found(_, _) => None case Failed(e) => Some(e)
    ensures forall t :: IsTextOf(text, t, Ieee(odd)) && AtPointer(t, path).Some? ==>
              failed == None && err == NoError && Denotes(buf[..], root, AtPointer(t, path).value)
    ensures forall t :: IsTextOf(text, t, Ieee(odd)) && !Strays(t, path) && AtPointer(t, path) == None ==>
              path != [] && failed == Some(LookupError(t, path))
  {
    ghost var conv := Ieee(odd);
    hide Denotes, IsTextOf, AtPointer, Query, Strays, Ieee, LookupError;
    var scan := new SkipScanner();
    StartCache(text, scan);
    var r := GetOnDemand(scan, text, 0, path);
    forall t: Tree | IsTextOf(text, t, conv) && AtPointer(t, path).Some?
      ensures r.Found? && r.start <= r.end <= |text|
      ensures IsTextOf(text[r.start..r.end], AtPointer(t, path).value, conv)
    {
      LookupAgrees(text, t, path, conv);
    }
    forall t: Tree | IsTextOf(text, t, conv) && !Strays(t, path)
      ensures AtPointer(t, path) == None ==> path != [] && r == Failed(LookupError(t, path))
    {
      LookupExact(text, t, path, conv);
    }
    match r {
      case Found(start, end) =>
        SpanInside(text, 0, path);
        err, buf, root := Parse(text[start..end], round, odd);
        failed := None;
      case Failed(e) =>
        failed := Some(e);
        err, buf, root := NoError, new byte[0], NullNode;
    }
  }

  lemma StartCache(text: Bytes, scan: SkipScanner)
    requires scan.bitsEnd == 0
    ensures scan.Valid(text, 0)
  {}
}
