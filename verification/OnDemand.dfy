/** Finding one value of a JSON text by a path without building the tree: containers, strings and
    primitives that lie in between are skipped unread. */
module OnDemand {
  import opened Options
  import opened Json
  import opened Lexer
  import opened Pointer
  import opened Balance
  import opened Bits
  import opened SkipContainer
  import opened SkipSpace
  import opened TokenSkip
  import Unescape
  import UnescapeBlocks

  datatype QueryError = BadCharacter | MismatchType | UnknownObjKey | IndexOutOfRange | BadKey

  datatype Outcome = Found(start: nat, end: nat) | Failed(err: QueryError)

  datatype Position = Reached(pos: nat) | Stopped(err: QueryError)

  // ---- what the scans mean, a byte at a time ----

  const KEY_TOKENS: Bytes := [QUOTE, CLOSE_OBJECT]
  const ELEMENT_TOKENS: Bytes := [COMMA, CLOSE_ARRAY]
  const NUMBER_TOKENS: Bytes := [CLOSE_ARRAY, CLOSE_OBJECT, COMMA]

  /** After the first byte c of a value: past a container or a string, and nowhere for anything else. */
  function PastValue(s: Bytes, p: nat, c: byte): (r: Option<nat>)
    requires p <= |s|
    ensures r.Some? ==> p <= r.value <= |s|
  {
    if c == OPEN_OBJECT then Close(s, p, CLEAN, 0, OPEN_OBJECT, CLOSE_OBJECT)
    else if c == OPEN_ARRAY then Close(s, p, CLEAN, 0, OPEN_ARRAY, CLOSE_ARRAY)
    else if c == QUOTE then QuoteEnd(s, p, false)
    else Some(p)
  }

  /** The position of element n of an array, from inside the opening bracket. */
  function ArrayElem(s: Bytes, i: nat, n: int): (r: Position)
    requires s != [] && i <= |s|
    ensures r.Reached? ==> i <= r.pos <= |s|
    decreases |s| - i
  {
    if n <= 0 || i >= |s| then
      if n == 0 then Reached(i) else Stopped(BadCharacter)
    else
      var p := SafeSkip(s, i);
      match PastValue(s, p, Peek(s, p - 1))
      case None => Stopped(BadCharacter)
      case Some(q) =>
        var t := FindToken(s, q, ELEMENT_TOKENS);
        if Peek(s, t) == COMMA then ArrayElem(s, t + 1, n - 1) else Stopped(IndexOutOfRange)
  }

  predicate IsValidSeparator(c: byte) {
    c == 0 || c == 0x09 || c == 0x0a || c == 0x0d || c == 0x20 || c == COMMA || c == CLOSE_ARRAY || c == CLOSE_OBJECT
  }

  /** The literal whose first byte c is at p - 1. */
  function PastLiteral(s: Bytes, p: nat, c: byte): (r: Option<nat>)
    requires 0 < p <= |s|
    ensures r.Some? ==> p <= r.value <= |s|
  {
    var start := p - 1;
    var e := if c == 0x66 then start + 5 else start + 4;
    if e <= |s| && (e == |s| || IsValidSeparator(s[e])) &&
       ((c == 0x74 && At(s, start, TRUE_WORD)) || (c == 0x6e && At(s, start, NULL_WORD)) ||
        (c == 0x66 && At(s, start + 1, FALSE_WORD[1..])))
    then Some(e) else None
  }

  /** The value from i on, after white space. */
  function Single(s: Bytes, i: nat): Outcome
    requires s != [] && i <= |s|
  {
    var p := SafeSkip(s, i);
    var c := Peek(s, p - 1);
    var end :=
      if c == QUOTE || c == OPEN_OBJECT || c == OPEN_ARRAY then PastValue(s, p, c)
      else if c == 0x74 || c == 0x6e || c == 0x66 then PastLiteral(s, p, c)
      else if IsDigit(c) || c == MINUS then Some(FindToken(s, p, NUMBER_TOKENS))
      else None;
    match end case None => Failed(BadCharacter) case Some(e) => Found(p - 1, e)
  }

  /** The key behind the opening quote: its bytes as they are when no backslash is among them, even where the
      grammar has no such literal, and decoded else. */
  function KeyAt(s: Bytes, i: nat): Option<Bytes>
    requires QuoteEnd(s, i, false).Some?
  {
    var e := QuoteEnd(s, i, false).value - 1;
    if NoBackslashIn(s, i, e) then Some(s[i..e])
    else match ScanString(s, i) case None => None case Some(key) => Some(key.bytes)
  }

  /** Follow the path from i. */
  function Query(s: Bytes, i: nat, path: seq<Step>): Outcome
    requires s != [] && i <= |s|
    decreases |path|, 1, 0
  {
    if path == [] then Single(s, i)
    else
      var p := SafeSkip(s, i);
      var c := Peek(s, p - 1);
      match path[0]
      case Key(name) =>
        if c != OPEN_OBJECT then Failed(MismatchType)
        else
          var t := FindToken(s, p, KEY_TOKENS);
          if Peek(s, t) == QUOTE then QueryKey(s, t + 1, name, path[1..]) else Failed(UnknownObjKey)
      case Index(n) =>
        if c != OPEN_ARRAY then Failed(MismatchType)
        else
          match ArrayElem(s, p, n)
          case Stopped(err) => Failed(err)
          case Reached(q) => Query(s, q, path[1..])
  }

  /** From after the opening quote of a key: the first member with that name. */
  function QueryKey(s: Bytes, i: nat, name: Bytes, rest: seq<Step>): Outcome
    requires s != [] && i <= |s|
    decreases |rest| + 1, 0, |s| - i
  {
    match QuoteEnd(s, i, false)
    case None => Failed(BadCharacter)
    case Some(e) =>
      match KeyAt(s, i)
      case None => Failed(BadKey)
      case Some(key) =>
        var p := SafeSkip(s, e);
        if Peek(s, p - 1) != COLON then Failed(BadCharacter)
        else if key == name then Query(s, p, rest)
        else
          var v := SafeSkip(s, p);
          match PastValue(s, v, Peek(s, v - 1))
          case None => Failed(BadCharacter)
          case Some(q) =>
            var t := FindToken(s, q, KEY_TOKENS);
            if Peek(s, t) == QUOTE then QueryKey(s, t + 1, name, rest) else Failed(UnknownObjKey)
  }

  /** The span found lies in the text. */
  lemma {:induction false} SpanInside(s: Bytes, i: nat, path: seq<Step>)
    requires s != [] && i <= |s| && Query(s, i, path).Found?
    ensures Query(s, i, path).start <= Query(s, i, path).end <= |s|
    decreases |path|, 1, 0
  {
    hide SafeSkip, PastValue, FindToken, ArrayElem, KeyAt, QuoteEnd, PastLiteral;
    if path != [] {
      var p := SafeSkip(s, i);
      match path[0] {
        case Key(name) =>
          KeySpanInside(s, FindToken(s, p, KEY_TOKENS) + 1, name, path[1..]);
        case Index(n) =>
          SpanInside(s, ArrayElem(s, p, n).pos, path[1..]);
      }
    }
  }

  lemma {:induction false} KeySpanInside(s: Bytes, i: nat, name: Bytes, rest: seq<Step>)
    requires s != [] && i <= |s| && QueryKey(s, i, name, rest).Found?
    ensures QueryKey(s, i, name, rest).start <= QueryKey(s, i, name, rest).end <= |s|
    decreases |rest| + 1, 0, |s| - i
  {
    hide SafeSkip, PastValue, FindToken, ArrayElem, KeyAt, PastLiteral, QuoteEnd;
    var e := QuoteEnd(s, i, false).value;
    var p := SafeSkip(s, e);
    if KeyAt(s, i).value == name {
      SpanInside(s, p, rest);
    } else {
      var v := SafeSkip(s, p);
      var q := PastValue(s, v, Peek(s, v - 1)).value;
      KeySpanInside(s, FindToken(s, q, KEY_TOKENS) + 1, name, rest);
    }
  }

  // ---- keys ----

  lemma {:induction false} PlainRun(s: Bytes, i: nat, j: nat)
    requires i <= j <= |s| && forall k :: i <= k < j ==> s[k] != QUOTE && s[k] != BACKSLASH
    ensures QuoteEnd(s, i, false) == QuoteEnd(s, j, false)
    decreases j - i
  {
    if i < j {
      PlainRun(s, i + 1, j);
    }
  }

  lemma HexRun(s: Bytes, i: nat)
    requires HexAt(s, i).Some?
    ensures QuoteEnd(s, i, false) == QuoteEnd(s, i + 4, false)
  {
    hide QuoteEnd;
    assert HexDigit(QUOTE) == None && HexDigit(BACKSLASH) == None;
    forall k | i <= k < i + 4
      ensures s[k] != QUOTE && s[k] != BACKSLASH
    {
      assert s[k] == s[i..i + 4][k - i];
    }
    PlainRun(s, i, i + 4);
  }

  lemma BackslashStep(s: Bytes, i: nat)
    requires i + 1 < |s| && s[i] == BACKSLASH
    ensures QuoteEnd(s, i, false) == QuoteEnd(s, i + 2, false)
  {}

  lemma EscapePassed(s: Bytes, i: nat)
    requires i < |s| && s[i] == BACKSLASH && ScanEscape(s, i).Some?
    ensures QuoteEnd(s, i, false) == QuoteEnd(s, ScanEscape(s, i).value.end, false)
  {
    hide QuoteEnd, HexAt, Utf8;
    BackslashStep(s, i);
    if s[i + 1] == 0x75 {
      HexRun(s, i + 2);
      if IsHigh(HexAt(s, i + 2).value) {
        AtTwo(s, i + 6, BACKSLASH, 0x75);
        BackslashStep(s, i + 6);
        HexRun(s, i + 8);
      }
    }
  }

  /** A well-formed literal ends at its unescaped quote. */
  lemma {:induction false} StringEnd(s: Bytes, i: nat)
    requires ScanString(s, i).Some?
    ensures QuoteEnd(s, i, false) == Some(ScanString(s, i).value.end)
    decreases |s| - i
  {
    hide ScanEscape;
    if s[i] == BACKSLASH {
      EscapePassed(s, i);
      StringEnd(s, ScanEscape(s, i).value.end);
    } else if s[i] != QUOTE {
      StringEnd(s, i + 1);
    }
  }

  /** The decoder cannot get past the quote, whatever the bytes before it. */
  lemma {:induction false} QuoteBounds(s: Bytes, i: nat)
    requires QuoteEnd(s, i, false).Some?
    ensures Unescape.Contained(s, i, QuoteEnd(s, i, false).value - 1)
    decreases |s| - i
  {
    hide ScanEscape;
    if s[i] == BACKSLASH {
      if ScanEscape(s, i).Some? {
        EscapePassed(s, i);
        QuoteBounds(s, ScanEscape(s, i).value.end);
      }
    } else if s[i] != QUOTE {
      QuoteBounds(s, i + 1);
    }
  }

  lemma {:induction false} CopiedQuote(s: Bytes, i: nat, esc: bool, t: Bytes, j: nat)
    requires QuoteEnd(s, i, esc).Some? && At(t, j, s[i..QuoteEnd(s, i, esc).value])
    ensures QuoteEnd(t, j, esc) == Some(j + (QuoteEnd(s, i, esc).value - i))
    decreases |s| - i
  {
    hide At;
    var e := QuoteEnd(s, i, esc).value;
    assert s[i..e] == [s[i]] + s[i + 1..e];
    AtConcat(t, j, [s[i]], s[i + 1..e]);
    AtByte(t, j, s[i]);
    if esc || s[i] != QUOTE {
      CopiedQuote(s, i + 1, !esc && s[i] == BACKSLASH, t, j + 1);
    }
  }

  lemma CopiedString(s: Bytes, i: nat, t: Bytes, j: nat)
    requires ScanString(s, i).Some?
    requires At(t, j, s[i..ScanString(s, i).value.end])
    ensures ScanString(t, j) == Some(Scanned(ScanString(s, i).value.bytes, j + (ScanString(s, i).value.end - i)))
  {
    hide ScanString, PiecesText, PiecesMeaning, ValidPieces;
    var ps := StringSound(s, i);
    StringComplete(t, j, ps);
  }

  /** Without escapes the key is the bytes themselves. */
  lemma {:induction false} RawKey(s: Bytes, i: nat)
    requires ScanString(s, i).Some? && NoBackslashIn(s, i, ScanString(s, i).value.end - 1)
    ensures ScanString(s, i).value.bytes == s[i..ScanString(s, i).value.end - 1]
    decreases |s| - i
  {
    if s[i] != QUOTE {
      assert s[i] != BACKSLASH;
      RawKey(s, i + 1);
      var e := ScanString(s, i + 1).value.end - 1;
      assert s[i..e] == [s[i]] + s[i + 1..e];
    }
  }

  /** A literal of the grammar is the key it spells. */
  lemma KeyOfLiteral(s: Bytes, i: nat)
    requires ScanString(s, i).Some?
    ensures QuoteEnd(s, i, false) == Some(ScanString(s, i).value.end)
    ensures KeyAt(s, i) == Some(ScanString(s, i).value.bytes)
  {
    hide ScanString, QuoteEnd, NoBackslashIn;
    StringEnd(s, i);
    if NoBackslashIn(s, i, ScanString(s, i).value.end - 1) {
      RawKey(s, i);
    }
  }

  /** Compare the key at pos, decoded in a buffer of its own if it may hold escapes. */
  method MatchKey(data: Bytes, start: nat, key: Bytes) returns (matched: bool, err: Option<QueryError>, pos: nat)
    requires start <= |data|
    ensures match QuoteEnd(data, start, false)
            case None => err == Some(BadCharacter)
            case Some(e) =>
              match KeyAt(data, start)
              case None => err == Some(BadKey)
              case Some(k) => err == None && pos == e && (matched <==> k == key)
    ensures err == None ==> start < pos <= |data|
  {
    hide QuoteEnd, ScanString, NoBackslashIn;
    var status;
    status, pos := SkipString(data, start);
    if status == Unclosed {
      return false, Some(BadCharacter), pos;
    }
    var slen := pos - 1 - start;
    if status == Normal {
      return data[start..start + slen] == key, None, pos;
    }
    var decoded := DecodeKey(data, start, slen);
    match decoded {
      case None => return false, Some(BadKey), pos;
      case Some(bytes) => return bytes == key, None, pos;
    }
  }

  /** The literal copied out up to its quote and decoded there; None when its escapes are malformed. */
  method DecodeKey(data: Bytes, start: nat, slen: nat) returns (decoded: Option<Bytes>)
    requires start <= |data| && QuoteEnd(data, start, false) == Some(start + slen + 1)
    ensures decoded == match ScanString(data, start) case None => None case Some(k) => Some(k.bytes)
  {
    hide QuoteEnd, ScanString, Unescape.Decoded, Unescape.Contained;
    var kbuf := new byte[slen + Unescape.VEC_LEN];
    for k := 0 to slen + 1
      invariant kbuf[..k] == data[start..start + k]
    {
      kbuf[k] := data[start + k];
    }
    ghost var copy := kbuf[..];
    CopyIsKey(data, start, slen, copy);
    var err, n, src := UnescapeBlocks.ParseStringInplace(kbuf, 0, copy, slen);
    DecodedCopy(kbuf[..], copy, err, n, src);
    decoded := if err != Unescape.NoError then None else Some(kbuf[..n]);
  }

  lemma CopyIsKey(s: Bytes, i: nat, slen: nat, copy: Bytes)
    requires QuoteEnd(s, i, false) == Some(i + slen + 1) && slen + 1 <= |copy|
    requires copy[..slen + 1] == s[i..i + slen + 1]
    ensures Unescape.Contained(copy, 0, slen)
    ensures ScanString(s, i).Some? <==> ScanString(copy, 0).Some?
    ensures ScanString(s, i).Some? ==> ScanString(copy, 0).value.bytes == ScanString(s, i).value.bytes
  {
    hide QuoteEnd, ScanString, Unescape.Contained;
    assert copy[0..0 + (slen + 1)] == copy[..slen + 1];
    CopiedQuote(s, i, false, copy, 0);
    QuoteBounds(copy, 0);
    if ScanString(s, i).Some? {
      StringEnd(s, i);
      CopiedString(s, i, copy, 0);
    }
    if ScanString(copy, 0).Some? {
      StringEnd(copy, 0);
      assert copy[0..slen + 1] == s[i..i + (slen + 1)];
      CopiedString(copy, 0, s, i);
    }
  }

  lemma DecodedCopy(now: Bytes, copy: Bytes, err: Unescape.Error, n: nat, src: nat)
    requires |now| == |copy| && Unescape.Decoded(now, copy, copy, 0, err, n, src)
    ensures err == Unescape.NoError ==>
              n <= |now| && ScanString(copy, 0).Some? && now[..n] == ScanString(copy, 0).value.bytes
    ensures ScanString(copy, 0).Some? ==> err == Unescape.NoError
  {
    hide ScanString;
    if err == Unescape.NoError {
      assert n <= |now| && now[0..0 + n] == now[..n];
    }
  }

  // ---- the query ----

  method SkipValue(data: Bytes, start: nat, c: byte) returns (ok: bool, pos: nat)
    requires start <= |data| < INT_END
    ensures ok <==> PastValue(data, start, c).Some?
    ensures ok ==> PastValue(data, start, c) == Some(pos)
  {
    hide Close, QuoteEnd;
    if c == OPEN_OBJECT {
      ok, pos := SkipContainer.SkipContainer(data, start, OPEN_OBJECT, CLOSE_OBJECT);
    } else if c == OPEN_ARRAY {
      ok, pos := SkipContainer.SkipContainer(data, start, OPEN_ARRAY, CLOSE_ARRAY);
    } else if c == QUOTE {
      var status;
      status, pos := SkipString(data, start);
      ok := status != Unclosed;
    } else {
      ok, pos := true, start;
    }
  }

  /** From inside an opening bracket to element `index`. */
  method GetArrayElem(scanner: SkipScanner, data: Bytes, start: nat, index: Int32) returns (r: Position)
    requires data != [] && start <= |data| < INT_END && scanner.Valid(data, start)
    modifies scanner
    ensures r == ArrayElem(data, start, index)
    ensures r.Reached? ==> scanner.Valid(data, r.pos)
  {
    hide SafeSkip, PastValue, FindToken, Cached;
    var pos := start;
    var n: Int32 := index;
    while n > 0 && pos < |data|
      invariant start <= pos <= |data| && scanner.Valid(data, pos)
      invariant ArrayElem(data, start, index) == ArrayElem(data, pos, n)
      decreases |data| - pos
    {
      n := n - 1;
      var c, ok;
      c, pos := scanner.SkipSpaceSafe(data, pos);
      ghost var p := pos;
      ok, pos := SkipValue(data, pos, c);
      if !ok {
        return Stopped(BadCharacter);
      }
      c, pos := GetNextToken(data, pos, ELEMENT_TOKENS);
      if c != COMMA {
        return Stopped(IndexOutOfRange);
      }
      pos := pos + 1;
      StillCached(data, p, pos, scanner.bitsEnd, scanner.bits);
    }
    r := if n == 0 then Reached(pos) else Stopped(BadCharacter);
  }

  lemma StillCached(s: Bytes, i: nat, j: nat, end: nat, bits: word)
    requires Cached(s, i, end, bits) && i <= j
    ensures Cached(s, j, end, bits)
  {
    hide Bit;
  }

  /** The white space before one value, and the value. */
  method SkipOne(scanner: SkipScanner, data: Bytes, from: nat) returns (r: Outcome)
    requires data != [] && from <= |data| < INT_END && scanner.Valid(data, from)
    modifies scanner
    ensures r == Single(data, from)
  {
    hide SafeSkip, PastValue, FindToken, Cached, PastLiteral;
    var c, pos := scanner.SkipSpaceSafe(data, from);
    var start := pos - 1;
    var ok := false;
    if c == QUOTE || c == OPEN_OBJECT || c == OPEN_ARRAY {
      ok, pos := SkipValue(data, pos, c);
    } else if c == 0x74 || c == 0x6e || c == 0x66 {
      ok, pos := SkipLiteral(data, pos, c);
    } else if IsDigit(c) || c == MINUS {
      c, pos := GetNextToken(data, pos, NUMBER_TOKENS);
      ok := true;
    }
    r := if ok then Found(start, pos) else Failed(BadCharacter);
  }

  method SkipLiteral(data: Bytes, from: nat, token: byte) returns (ok: bool, pos: nat)
    requires 0 < from <= |data|
    ensures ok <==> PastLiteral(data, from, token).Some?
    ensures ok ==> PastLiteral(data, from, token) == Some(pos)
  {
    var start := from - 1;
    pos := from;
    if token == 0x74 {
      if start + 4 <= |data| && data[start..start + 4] == TRUE_WORD &&
         (start + 4 == |data| || IsValidSeparator(data[start + 4])) {
        return true, pos + 3;
      }
    } else if token == 0x6e {
      if start + 4 <= |data| && data[start..start + 4] == NULL_WORD &&
         (start + 4 == |data| || IsValidSeparator(data[start + 4])) {
        return true, pos + 3;
      }
    } else if token == 0x66 {
      if start + 5 <= |data| && data[start + 1..start + 5] == FALSE_WORD[1..] &&
         (start + 5 == |data| || IsValidSeparator(data[start + 5])) {
        return true, pos + 4;
      }
    }
    ok := false;
  }

  /** From after the opening quote of the first key to after the colon of the one that matches. */
  method FindKey(scanner: SkipScanner, data: Bytes, start: nat, key: Bytes, ghost rest: seq<Step>)
    returns (err: Option<QueryError>, pos: nat)
    requires data != [] && start <= |data| < INT_END && scanner.Valid(data, start)
    modifies scanner
    ensures err == None ==> pos <= |data| && scanner.Valid(data, pos)
    ensures var r := QueryKey(data, start, key, rest);
            r == match err case None => Query(data, pos, rest) case Some(e) => Failed(e)
  {
    hide SafeSkip, PastValue, FindToken, Cached, QuoteEnd, ScanString, Query, KeyAt, NoBackslashIn;
    pos := start;
    while true
      invariant start <= pos <= |data| && scanner.Valid(data, pos)
      invariant QueryKey(data, start, key, rest) == QueryKey(data, pos, key, rest)
      decreases |data| - pos
    {
      ghost var k := pos;
      var matched, c, ok;
      matched, err, pos := MatchKey(data, pos, key);
      if err != None {
        return;
      }
      StillCached(data, k, pos, scanner.bitsEnd, scanner.bits);
      c, pos := scanner.SkipSpaceSafe(data, pos);
      if c != COLON {
        return Some(BadCharacter), pos;
      }
      if matched {
        return;
      }
      c, pos := scanner.SkipSpaceSafe(data, pos);
      ghost var v := pos;
      ok, pos := SkipValue(data, pos, c);
      if !ok {
        return Some(BadCharacter), pos;
      }
      c, pos := GetNextToken(data, pos, KEY_TOKENS);
      if c != QUOTE {
        return Some(UnknownObjKey), pos;
      }
      pos := pos + 1;
      StillCached(data, v, pos, scanner.bitsEnd, scanner.bits);
    }
  }

  /** The span of the value the path leads to. */
  method GetOnDemand(scanner: SkipScanner, data: Bytes, start: nat, path: seq<Step>) returns (r: Outcome)
    requires data != [] && start <= |data| < INT_END && scanner.Valid(data, start)
    modifies scanner
    ensures r == Query(data, start, path)
  {
    hide SafeSkip, FindToken, Cached, ArrayElem, QueryKey, Single;
    var pos: nat := start;
    var i := 0;
    assert path[0..] == path;
    while i != |path|
      invariant i <= |path| && pos <= |data| && scanner.Valid(data, pos)
      invariant Query(data, start, path) == Query(data, pos, path[i..])
    {
      ghost var rest := path[i + 1..];
      assert path[i..] == [path[i]] + rest;
      i := i + 1;
      var c;
      c, pos := scanner.SkipSpaceSafe(data, pos);
      ghost var p := pos;
      match path[i - 1] {
        case Key(key) =>
          if c != OPEN_OBJECT {
            return Failed(MismatchType);
          }
          c, pos := GetNextToken(data, pos, KEY_TOKENS);
          if c != QUOTE {
            return Failed(UnknownObjKey);
          }
          pos := pos + 1;
          StillCached(data, p, pos, scanner.bitsEnd, scanner.bits);
          var err;
          err, pos := FindKey(scanner, data, pos, key, rest);
          if err.Some? {
            return Failed(err.value);
          }
        case Index(n) =>
          if c != OPEN_ARRAY {
            return Failed(MismatchType);
          }
          var at := GetArrayElem(scanner, data, pos, n);
          match at {
            case Stopped(e) => return Failed(e);
            case Reached(q) => pos := q;
          }
      }
    }
    assert path[i..] == [];
    r := SkipOne(scanner, data, pos);
  }
}
