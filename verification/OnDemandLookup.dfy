/** On a well-formed text the on-demand query finds what the document lookup finds. */
module OnDemandLookup {
  import opened Options
  import opened Json
  import opened Lexer
  import opened Reference
  import opened Sentinel
  import opened Balance
  import opened SkipContainer
  import opened SkipSpace
  import opened TokenSkip
  import opened Pointer
  import opened OnDemand

  // ---- bytes between tokens ----

  /** No token any scan looks for. */
  predicate Bare(c: byte) { c != QUOTE && c != COMMA && c != CLOSE_ARRAY && c != CLOSE_OBJECT }

  predicate AllBare(x: Bytes) { forall k :: 0 <= k < |x| ==> Bare(x[k]) }

  predicate TokenSet(tokens: Bytes) { tokens == KEY_TOKENS || tokens == ELEMENT_TOKENS || tokens == NUMBER_TOKENS }

  lemma BareRun(s: Bytes, i: nat, x: Bytes, tokens: Bytes)
    requires At(s, i, x) && AllBare(x) && TokenSet(tokens)
    ensures FindToken(s, i, tokens) == FindToken(s, i + |x|, tokens)
  {
    AtEach(s, i, x);
    NoToken(s, i, i + |x|, tokens) by {
      forall k | i <= k < i + |x|
        ensures s[k] !in tokens
      {
        assert Bare(x[k - i]);
      }
    }
  }

  lemma BlankBare(w: Bytes)
    requires IsBlank(w)
    ensures AllBare(w)
  {}

  lemma NumberBare(x: Bytes)
    requires NumberBytes(x)
    ensures AllBare(x)
  {}

  lemma TailBare(x: Bytes)
    requires x != [] && AllBare(x)
    ensures AllBare(x[1..])
  {}

  predicate Primitive(v: Value) { v.NullValue? || v.TrueValue? || v.FalseValue? || v.NumberValue? }

  lemma PrimitiveBare(v: Value)
    requires Valid(v) && Primitive(v)
    ensures AllBare(Text(v))
  {
    hide NumberText, ValidNumber;
    if v.NumberValue? {
      NumberSpelling(v.n);
      NumberBare(NumberText(v.n));
    }
  }

  /** How each kind of value starts. */
  lemma FirstOf(v: Value)
    requires Valid(v)
    ensures Text(v) != []
    ensures (Text(v)[0] == OPEN_OBJECT <==> v.EmptyObject? || v.ObjectValue?)
    ensures (Text(v)[0] == OPEN_ARRAY <==> v.EmptyArray? || v.ArrayValue?)
    ensures (Text(v)[0] == QUOTE <==> v.StringValue?)
    ensures (IsDigit(Text(v)[0]) || Text(v)[0] == MINUS <==> v.NumberValue?)
    ensures v.NullValue? ==> Text(v)[0] == 0x6e
    ensures v.TrueValue? ==> Text(v)[0] == 0x74
    ensures v.FalseValue? ==> Text(v)[0] == 0x66
  {
    hide NumberText, ValidNumber, ElementsText, PairsText, PiecesText;
    if v.NumberValue? {
      NumberStart(v.n);
    }
  }

  /** A string literal in the text ends where it is spelled to end. */
  lemma StringPassed(s: Bytes, i: nat, ps: seq<Piece>)
    requires ValidPieces(ps) && At(s, i, StringText(ps))
    ensures i < |s| && s[i] == QUOTE
    ensures ScanString(s, i + 1) == Some(Scanned(PiecesMeaning(ps), i + |StringText(ps)|))
    ensures QuoteEnd(s, i + 1, false) == Some(i + |StringText(ps)|)
  {
    hide At, PiecesText, PiecesMeaning, ValidPieces, ScanString, QuoteEnd;
    Associate([QUOTE], PiecesText(ps), [QUOTE]);
    FirstByte(s, i, QUOTE, PiecesText(ps) + [QUOTE]);
    StringComplete(s, i + 1, ps);
    StringEnd(s, i + 1);
  }

  /** Skipping a value unread and going on to the next token leads past the value. */
  lemma ValuePassed(s: Bytes, i: nat, v: Value, tokens: Bytes)
    requires Valid(v) && At(s, i, Text(v)) && TokenSet(tokens)
    ensures Text(v) != []
    ensures match PastValue(s, i + 1, Text(v)[0])
            case None => false
            case Some(q) =>
              FindToken(s, q, tokens) == FindToken(s, i + |Text(v)|, tokens) &&
              (!Primitive(v) ==> q == i + |Text(v)|)
  {
    hide At, Text, FindToken, Close, QuoteEnd, TokenSet, ScanString, PiecesMeaning, Valid;
    FirstOf(v);
    if Primitive(v) {
      PrimitivePassed(s, i, v, tokens);
    } else if v.StringValue? {
      SpelledString(v);
      StringPassed(s, i, v.ps);
    } else {
      MatchingClose(s, i, v);
    }
  }

  lemma PrimitivePassed(s: Bytes, i: nat, v: Value, tokens: Bytes)
    requires Valid(v) && Primitive(v) && At(s, i, Text(v)) && TokenSet(tokens)
    ensures i + 1 <= |s| && i + |Text(v)| <= |s|
    ensures FindToken(s, i + 1, tokens) == FindToken(s, i + |Text(v)|, tokens)
  {
    hide Text, FindToken, TokenSet, AllBare, Valid;
    FirstOf(v);
    PrimitiveBare(v);
    var x := Text(v);
    TailBare(x);
    assert x == [x[0]] + x[1..];
    AtConcat(s, i, [x[0]], x[1..]);
    BareRun(s, i + 1, x[1..], tokens);
  }

  lemma SpelledString(v: Value)
    requires v.StringValue? && Valid(v)
    ensures Text(v) == StringText(v.ps) && ValidPieces(v.ps)
  {}

  // ---- arrays ----

  /** After a value ending at e come blanks and then punctuation or the end of the text. */
  predicate Ends(s: Bytes, e: nat) {
    e <= |s| && (Skip(s, e) < |s| ==> s[Skip(s, e)] in NUMBER_TOKENS)
  }

  /** White space w and the value u at i, and nothing after it but blanks and punctuation. */
  predicate Stands(s: Bytes, i: nat, w: Bytes, u: Value) {
    IsBlank(w) && At(s, i, w + Text(u)) && Ends(s, i + |w| + |Text(u)|)
  }

  lemma EndsBefore(s: Bytes, e: nat, w: Bytes, c: byte, rest: Bytes)
    requires IsBlank(w) && At(s, e, w + ([c] + rest)) && c in NUMBER_TOKENS
    ensures Ends(s, e) && Skip(s, e) == e + |w|
    ensures e + |w| < |s| && s[e + |w|] == c && At(s, e + |w| + 1, rest)
  {
    hide At, Skip, IsBlank;
    StartOf([c], rest);
    assert !IsSpace(c);
    SkipTo(s, e, w, [c] + rest);
    FirstByte(s, e + |w|, c, rest);
  }

  /** White space, then a value: the scan finds its first byte. */
  lemma ValueFound(s: Bytes, i: nat, w: Bytes, u: Value)
    requires Valid(u) && IsBlank(w) && At(s, i, w + Text(u))
    ensures i + |w| < |s| && SafeSkip(s, i) == i + |w| + 1 && At(s, i + |w|, Text(u))
    ensures Text(u) != [] && s[i + |w|] == Text(u)[0]
  {
    hide At, Skip, IsBlank, Text, Valid;
    ValueStart(u);
    NotBlank(Text(u)[0]);
    SkipTo(s, i, w, Text(u));
    AtInside(s, i + |w|, Text(u));
  }

  lemma AtInside(s: Bytes, i: nat, x: Bytes)
    requires At(s, i, x) && x != []
    ensures i < |s| && i + |x| <= |s| && s[i] == x[0]
  {
    AtEach(s, i, x);
  }

  /** One element with its blanks; `next` is its comma or the closing bracket. */
  lemma ElementStands(s: Bytes, i: nat, es: Elements) returns (next: nat)
    requires ValidElements(es) && At(s, i, ElementsText(es))
    ensures Stands(s, i, es.before, es.v)
    ensures next == i + |es.before| + |Text(es.v)| + |es.after| < |s| && At(s, next, MoreElementsText(es.rest))
    ensures s[next] == if es.rest.Then? then COMMA else CLOSE_ARRAY
    ensures At(s, i + |es.before| + |Text(es.v)|, es.after)
  {
    hide At, Skip, IsBlank, Text, Valid, ValidElements, Ends;
    ElementParts(es);
    var x, more := Text(es.v), MoreElementsText(es.rest);
    Associate(es.before, x, es.after + more);
    AtConcat(s, i, es.before + x, es.after + more);
    var e := i + |es.before| + |x|;
    next := e + |es.after|;
    AtConcat(s, e, es.after, more);
    var c := if es.rest.Then? then COMMA else CLOSE_ARRAY;
    var tail := if es.rest.Then? then ElementsText(es.rest.more) else [];
    assert more == [c] + tail;
    EndsBefore(s, e, es.after, c, tail);
  }

  lemma ElementParts(es: Elements)
    requires ValidElements(es)
    ensures IsBlank(es.before) && Valid(es.v) && IsBlank(es.after) && (es.rest.Then? ==> ValidElements(es.rest.more))
  {}

  /** One element is passed over. */
  lemma ElementPassed(s: Bytes, i: nat, es: Elements, n: nat)
    requires ValidElements(es) && At(s, i, ElementsText(es)) && n > 0 && es.rest.Then?
    ensures var next := i + |es.before| + |Text(es.v)| + |es.after|;
            next < |s| && At(s, next + 1, ElementsText(es.rest.more)) &&
            ArrayElem(s, i, n) == ArrayElem(s, next + 1, n - 1)
  {
    hide At, Skip, IsBlank, Text, Valid, ValidElements, Ends, SafeSkip, PastValue, FindToken, ElementsText, AllBare;
    ElementParts(es);
    var next := ElementStands(s, i, es);
    ValueFound(s, i, es.before, es.v);
    ValuePassed(s, i + |es.before|, es.v, ELEMENT_TOKENS);
    BlankBare(es.after);
    BareRun(s, i + |es.before| + |Text(es.v)|, es.after, ELEMENT_TOKENS);
    FoundToken(s, next, ELEMENT_TOKENS);
    FirstByte(s, next, COMMA, ElementsText(es.rest.more));
  }

  lemma {:induction false} ElementFound(s: Bytes, i: nat, es: Elements, n: nat) returns (q: nat, w: Bytes)
    requires ValidElements(es) && At(s, i, ElementsText(es)) && FindElement(es, n).Some?
    ensures s != [] && i <= |s| && q <= |s|
    ensures ArrayElem(s, i, n) == Reached(q) && Stands(s, q, w, FindElement(es, n).value)
    decreases es
  {
    hide At, Skip, IsBlank, Text, Valid, ValidElements, Stands, SafeSkip, PastValue, FindToken, ElementsText;
    ElementParts(es);
    var next := ElementStands(s, i, es);
    if n == 0 {
      q, w := i, es.before;
    } else {
      ElementPassed(s, i, es, n);
      hide ArrayElem;
      q, w := ElementFound(s, next + 1, es.rest.more, n - 1);
    }
  }

  // ---- objects ----

  lemma PairParts(ps: Pairs)
    requires ValidPairs(ps)
    ensures IsBlank(ps.a) && ValidPieces(ps.key) && IsBlank(ps.b) && IsBlank(ps.c) && Valid(ps.v) && IsBlank(ps.d)
    ensures ps.rest.ThenPair? ==> ValidPairs(ps.rest.more)
  {}

  lemma KeyPassed(s: Bytes, i: nat, ps: seq<Piece>)
    requires ValidPieces(ps) && At(s, i, StringText(ps))
    ensures i < |s| && s[i] == QUOTE
    ensures ScanString(s, i + 1) == Some(Scanned(PiecesMeaning(ps), i + |StringText(ps)|))
    ensures QuoteEnd(s, i + 1, false) == Some(i + |StringText(ps)|) && KeyAt(s, i + 1) == Some(PiecesMeaning(ps))
  {
    hide At, StringText, PiecesMeaning, ValidPieces, ScanString, QuoteEnd, KeyAt;
    StringPassed(s, i, ps);
    KeyOfLiteral(s, i + 1);
  }

  /** The key literal at j is read as what it spells, and the colon is the next byte that is not blank. */
  ghost predicate KeyPlaced(s: Bytes, key: seq<Piece>, j: nat, colon: nat)
    requires ValidPieces(key)
  {
    var k := j + |StringText(key)|;
    && j < |s| && s[j] == QUOTE && k <= |s|
    && ScanString(s, j + 1) == Some(Scanned(PiecesMeaning(key), k)) && QuoteEnd(s, j + 1, false) == Some(k)
    && KeyAt(s, j + 1) == Some(PiecesMeaning(key)) && SafeSkip(s, k) == colon + 1
  }

  /** The opening quote of the next key, from anywhere before its blanks. */
  lemma KeyStands(s: Bytes, i: nat, ps: Pairs) returns (j: nat, colon: nat)
    requires ValidPairs(ps) && At(s, i, PairsText(ps))
    ensures ValidPieces(ps.key) && KeyPlaced(s, ps.key, j, colon)
    ensures i <= j < colon < |s| && FindToken(s, i, KEY_TOKENS) == j && s[colon] == COLON
    ensures At(s, colon + 1, ps.c + (Text(ps.v) + (ps.d + MorePairsText(ps.rest))))
  {
    hide At, Skip, IsBlank, Text, Valid, ValidPairs, ValidPieces, StringText, PiecesMeaning, FindToken, ScanString,
      QuoteEnd, MorePairsText, AllBare, KeyAt;
    PairParts(ps);
    var rest := ps.c + (Text(ps.v) + (ps.d + MorePairsText(ps.rest)));
    var key := StringText(ps.key);
    AtConcat(s, i, ps.a, key + (ps.b + ([COLON] + rest)));
    j := i + |ps.a|;
    AtConcat(s, j, key, ps.b + ([COLON] + rest));
    BlankBare(ps.a);
    BareRun(s, i, ps.a, KEY_TOKENS);
    KeyPassed(s, j, ps.key);
    FoundToken(s, j, KEY_TOKENS);
    colon := ColonStands(s, j + |key|, ps.b, rest);
  }

  lemma ColonStands(s: Bytes, k: nat, b: Bytes, rest: Bytes) returns (colon: nat)
    requires IsBlank(b) && At(s, k, b + ([COLON] + rest))
    ensures k <= colon < |s| && SafeSkip(s, k) == colon + 1 && s[colon] == COLON && At(s, colon + 1, rest)
  {
    hide At, Skip, IsBlank;
    StartOf([COLON], rest);
    SkipTo(s, k, b, [COLON] + rest);
    colon := k + |b|;
    FirstByte(s, colon, COLON, rest);
  }

  /** The value after the colon. */
  lemma MemberStands(s: Bytes, i: nat, ps: Pairs) returns (next: nat)
    requires ValidPairs(ps) && At(s, i, ps.c + (Text(ps.v) + (ps.d + MorePairsText(ps.rest))))
    ensures Stands(s, i, ps.c, ps.v)
    ensures next == i + |ps.c| + |Text(ps.v)| + |ps.d| < |s| && At(s, next, MorePairsText(ps.rest))
    ensures At(s, i + |ps.c| + |Text(ps.v)|, ps.d)
  {
    hide At, Skip, IsBlank, Text, Valid, ValidPairs, Ends;
    PairParts(ps);
    var x, more := Text(ps.v), MorePairsText(ps.rest);
    Associate(ps.c, x, ps.d + more);
    AtConcat(s, i, ps.c + x, ps.d + more);
    var e := i + |ps.c| + |x|;
    next := e + |ps.d|;
    AtConcat(s, e, ps.d, more);
    var c := if ps.rest.ThenPair? then COMMA else CLOSE_OBJECT;
    var tail := if ps.rest.ThenPair? then PairsText(ps.rest.more) else [];
    assert more == [c] + tail;
    EndsBefore(s, e, ps.d, c, tail);
  }

  /** A member with another key is passed over, up to the quote of the next key. */
  lemma MemberPassed(s: Bytes, p: nat, ps: Pairs)
    requires ValidPairs(ps) && At(s, p, ps.c + (Text(ps.v) + (ps.d + MorePairsText(ps.rest)))) && ps.rest.ThenPair?
    ensures p <= |s| && SafeSkip(s, p) > 0
    ensures var v := SafeSkip(s, p);
            var next := p + |ps.c| + |Text(ps.v)| + |ps.d|;
            next < |s| && At(s, next + 1, PairsText(ps.rest.more)) &&
            match PastValue(s, v, Peek(s, v - 1))
            case None => false
            case Some(q) => FindToken(s, q, KEY_TOKENS) == FindToken(s, next + 1, KEY_TOKENS)
  {
    hide At, Skip, IsBlank, Text, Valid, ValidPairs, Ends, SafeSkip, PastValue, FindToken, PairsText, AllBare;
    PairParts(ps);
    var next := MemberStands(s, p, ps);
    ValueFound(s, p, ps.c, ps.v);
    ValuePassed(s, p + |ps.c|, ps.v, KEY_TOKENS);
    BlankBare(ps.d);
    BareRun(s, p + |ps.c| + |Text(ps.v)|, ps.d, KEY_TOKENS);
    FirstByte(s, next, COMMA, PairsText(ps.rest.more));
    NoToken(s, next, next + 1, KEY_TOKENS);
  }

  /** The query of a key, from the token scan that looks for its first quote. */
  function FromKey(s: Bytes, i: nat, name: Bytes, rest: seq<Step>): Outcome
    requires s != [] && i <= |s|
  {
    var t := FindToken(s, i, KEY_TOKENS);
    if Peek(s, t) == QUOTE then QueryKey(s, t + 1, name, rest) else Failed(UnknownObjKey)
  }

  /** One key: go on at the value when it matches, at the next key when not. */
  lemma KeyStep(s: Bytes, i: nat, ps: Pairs, name: Bytes, rest: seq<Step>) returns (p: nat)
    requires ValidPairs(ps) && At(s, i, PairsText(ps))
    requires PiecesMeaning(ps.key) == name || ps.rest.ThenPair?
    ensures s != [] && i <= |s| && p <= |s|
    ensures At(s, p, ps.c + (Text(ps.v) + (ps.d + MorePairsText(ps.rest))))
    ensures PiecesMeaning(ps.key) == name ==> FromKey(s, i, name, rest) == Query(s, p, rest)
    ensures PiecesMeaning(ps.key) != name ==>
              var next := p + |ps.c| + |Text(ps.v)| + |ps.d|;
              next < |s| && At(s, next + 1, PairsText(ps.rest.more)) &&
              FromKey(s, i, name, rest) == FromKey(s, next + 1, name, rest)
  {
    hide At, Skip, IsBlank, Text, Valid, ValidPairs, ValidPieces, StringText, PiecesMeaning, FindToken, ScanString,
      QuoteEnd, MorePairsText, PairsText, SafeSkip, PastValue, Query, KeyAt;
    PairParts(ps);
    var j, colon := KeyStands(s, i, ps);
    p := colon + 1;
    if PiecesMeaning(ps.key) != name {
      MemberPassed(s, p, ps);
    }
  }

  lemma {:induction false} KeyFound(s: Bytes, i: nat, ps: Pairs, name: Bytes, rest: seq<Step>)
    returns (p: nat, w: Bytes)
    requires ValidPairs(ps) && At(s, i, PairsText(ps)) && FindPair(ps, name).Some?
    ensures s != [] && i <= |s| && p <= |s|
    ensures FromKey(s, i, name, rest) == Query(s, p, rest) && Stands(s, p, w, FindPair(ps, name).value)
    decreases ps
  {
    hide At, Skip, IsBlank, Text, Valid, ValidPairs, PiecesMeaning, MorePairsText, PairsText, Stands, Query, FromKey;
    PairParts(ps);
    p := KeyStep(s, i, ps, name, rest);
    if PiecesMeaning(ps.key) == name {
      var next := MemberStands(s, p, ps);
      w := ps.c;
    } else {
      var next := p + |ps.c| + |Text(ps.v)| + |ps.d|;
      p, w := KeyFound(s, next + 1, ps.rest.more, name, rest);
    }
  }

  // ---- paths ----

  /** The span of u, with the blanks after it when u is a number. */
  predicate Spans(s: Bytes, r: Outcome, u: Value) {
    r.Found? && At(s, r.start, Text(u)) &&
    var e := r.start + |Text(u)|;
    r.end == if u.NumberValue? then Skip(s, e) else e
  }

  lemma LiteralFound(s: Bytes, i: nat, u: Value)
    requires (u.NullValue? || u.TrueValue? || u.FalseValue?) && At(s, i, Text(u)) && Ends(s, i + |Text(u)|)
    ensures PastLiteral(s, i + 1, Text(u)[0]) == Some(i + |Text(u)|)
  {
    var e := i + |Text(u)|;
    if e < |s| {
      assert IsSpace(s[e]) || Skip(s, e) == e;
    }
    if u.FalseValue? {
      AtConcat(s, i, [0x66], FALSE_WORD[1..]);
      assert FALSE_WORD == [0x66] + FALSE_WORD[1..];
    }
  }

  lemma NumberFound(s: Bytes, i: nat, u: Value)
    requires Valid(u) && u.NumberValue? && At(s, i, Text(u)) && Ends(s, i + |Text(u)|) && Text(u) != []
    ensures i + 1 <= |s| && FindToken(s, i + 1, NUMBER_TOKENS) == Skip(s, i + |Text(u)|)
  {
    hide Text, FindToken, AllBare, Skip, Valid;
    PrimitivePassed(s, i, u, NUMBER_TOKENS);
    var e := i + |Text(u)|;
    var j := Skip(s, e);
    SkipSound(s, e);
    BlankBare(s[e..j]);
    BareRun(s, e, s[e..j], NUMBER_TOKENS);
    TokenHere(s, j, NUMBER_TOKENS);
  }

  lemma TokenHere(s: Bytes, j: nat, tokens: Bytes)
    requires j <= |s| && (j < |s| ==> s[j] in tokens)
    ensures FindToken(s, j, tokens) == j
  {}

  lemma SingleFound(s: Bytes, i: nat, w: Bytes, u: Value)
    requires Valid(u) && Stands(s, i, w, u)
    ensures s != [] && i <= |s| && Spans(s, Single(s, i), u)
  {
    hide At, Text, FindToken, Skip, Valid, IsBlank, SafeSkip, Ends, PastValue, PastLiteral;
    ValueFound(s, i, w, u);
    var j := i + |w|;
    FirstOf(u);
    if u.NumberValue? {
      NumberFound(s, j, u);
    } else if Primitive(u) {
      LiteralFound(s, j, u);
    } else {
      ValuePassed(s, j, u, NUMBER_TOKENS);
    }
  }

  /** The path down the syntax tree. */
  function Descend(v: Value, path: seq<Step>): Option<Value>
    requires Valid(v)
    decreases |path|
  {
    if path == [] then Some(v)
    else
      match Child(v, path[0])
      case None => None
      case Some(u) => if Valid(u) then Descend(u, path[1..]) else None
  }

  lemma ChildFound(s: Bytes, i: nat, w: Bytes, v: Value, path: seq<Step>) returns (q: nat, x: Bytes)
    requires Valid(v) && Stands(s, i, w, v) && path != [] && Child(v, path[0]).Some?
    ensures s != [] && i <= |s| && q <= |s|
    ensures Query(s, i, path) == Query(s, q, path[1..]) && Stands(s, q, x, Child(v, path[0]).value)
  {
    hide At, Skip, IsBlank, Ends, ElementsText, PairsText, SafeSkip, FindToken, ArrayElem, QueryKey, FindElement,
      FindPair, Stands, Valid;
    OpenedValue(v);
    StandsHere(s, i, w, v);
    ValueFound(s, i, w, v);
    var j := i + |w|;
    match path[0]
    case Key(name) =>
      FirstByte(s, j, OPEN_OBJECT, PairsText(v.pairs));
      q, x := KeyFound(s, j + 1, v.pairs, name, path[1..]);
      KeyQuery(s, i, j + 1, path);
    case Index(n) =>
      FirstByte(s, j, OPEN_ARRAY, ElementsText(v.elements));
      q, x := ElementFound(s, j + 1, v.elements, n);
  }

  lemma StandsHere(s: Bytes, i: nat, w: Bytes, v: Value)
    requires Stands(s, i, w, v)
    ensures IsBlank(w) && At(s, i, w + Text(v))
  {}

  lemma OpenedValue(v: Value)
    requires Valid(v)
    ensures v.ObjectValue? ==> Text(v) == [OPEN_OBJECT] + PairsText(v.pairs) && ValidPairs(v.pairs)
    ensures v.ArrayValue? ==> Text(v) == [OPEN_ARRAY] + ElementsText(v.elements) && ValidElements(v.elements)
  {}

  lemma KeyQuery(s: Bytes, i: nat, p: nat, path: seq<Step>)
    requires s != [] && i <= |s| && path != [] && path[0].Key?
    requires SafeSkip(s, i) == p > 0 && Peek(s, p - 1) == OPEN_OBJECT
    ensures Query(s, i, path) == FromKey(s, p, path[0].name, path[1..])
  {
    hide SafeSkip, FindToken, QueryKey;
  }

  lemma {:induction false} PathFound(s: Bytes, i: nat, w: Bytes, v: Value, path: seq<Step>)
    requires Valid(v) && Stands(s, i, w, v) && Descend(v, path).Some?
    ensures s != [] && i <= |s| && Spans(s, Query(s, i, path), Descend(v, path).value)
    decreases |path|
  {
    hide Stands, Spans, Child, Valid, Single;
    if path == [] {
      SingleFound(s, i, w, v);
      QueryNothing(s, i, path);
    } else {
      var q, x := ChildFound(s, i, w, v, path);
      hide Query;
      PathFound(s, q, x, Child(v, path[0]).value, path[1..]);
    }
  }

  lemma QueryNothing(s: Bytes, i: nat, path: seq<Step>)
    requires s != [] && i <= |s| && path == []
    ensures Query(s, i, path) == Single(s, i)
  {
    hide Single;
  }

  lemma {:induction false} DescendMeaning(v: Value, path: seq<Step>, conv: Conversion)
    requires Valid(v) && Meaning(v, conv).Some? && AtPointer(Meaning(v, conv).value, path).Some?
    ensures Descend(v, path).Some? && Valid(Descend(v, path).value)
    ensures Meaning(Descend(v, path).value, conv) == AtPointer(Meaning(v, conv).value, path)
    decreases |path|
  {
    hide Child, Valid, Meaning, AtPointer;
    if path == [] {
      PointerEnd(Meaning(v, conv).value, path);
    } else {
      ChildMeaning(v, path[0], conv);
      PointerStep(Meaning(v, conv).value, path);
      DescendMeaning(Child(v, path[0]).value, path[1..], conv);
    }
  }

  lemma PointerEnd(t: Tree, path: seq<Step>)
    requires path == []
    ensures AtPointer(t, path) == Some(t)
  {}

  lemma TextStands(text: Bytes, w: Bytes, v: Value, u: Bytes)
    requires IsBlank(w) && Valid(v) && IsBlank(u) && text == w + (Text(v) + u)
    ensures Stands(text, 0, w, v)
  {
    hide Text, IsBlank, Valid;
    Associate(w, Text(v), u);
    assert text[0..0 + |w + Text(v)|] == w + Text(v);
    var e := |w| + |Text(v)|;
    assert text[e..e + |u|] == u;
    SkipComplete(text, e, u);
  }

  /** Blanks after a value do not change what the text stands for. */
  lemma TextWith(text: Bytes, u: Value, blank: Bytes, conv: Conversion)
    requires Valid(u) && Meaning(u, conv).Some? && IsBlank(blank) && text == Text(u) + blank
    ensures IsTextOf(text, Meaning(u, conv).value, conv)
  {
    hide Text, IsBlank, Valid, Meaning;
    NoBlank();
    var none: Bytes := [];
    assert text == none + (Text(u) + blank);
  }

  lemma SpanIsText(s: Bytes, r: Outcome, u: Value, conv: Conversion)
    requires Valid(u) && Meaning(u, conv).Some? && Spans(s, r, u)
    ensures r.Found? && r.start <= r.end <= |s| && IsTextOf(s[r.start..r.end], Meaning(u, conv).value, conv)
  {
    hide Text, IsBlank, Valid, Meaning, IsTextOf;
    var e := r.start + |Text(u)|;
    var blank := s[e..r.end];
    SkipSound(s, e);
    NoBlank();
    if !u.NumberValue? {
      assert blank == [];
    }
    SliceJoin(s, r.start, e, r.end);
    TextWith(s[r.start..r.end], u, blank, conv);
  }

  lemma TextParts(text: Bytes, t: Tree, conv: Conversion) returns (w: Bytes, v: Value, u: Bytes)
    requires IsTextOf(text, t, conv)
    ensures IsBlank(w) && Valid(v) && IsBlank(u) && text == w + (Text(v) + u) && Meaning(v, conv) == Some(t)
  {
    hide Text, IsBlank, Valid, Meaning;
    w, v, u :| IsBlank(w) && Valid(v) && IsBlank(u) && text == w + (Text(v) + u) && Meaning(v, conv) == Some(t);
  }

  /** Where the document lookup finds a value, the query finds a text of that value. */
  lemma LookupAgrees(text: Bytes, t: Tree, path: seq<Step>, conv: Conversion)
    requires IsTextOf(text, t, conv) && AtPointer(t, path).Some?
    ensures text != []
    ensures var r := Query(text, 0, path);
            r.Found? && r.start <= r.end <= |text| &&
            IsTextOf(text[r.start..r.end], AtPointer(t, path).value, conv)
  {
    hide Text, IsBlank, Valid, Meaning, AtPointer, Stands, Spans, Query, Descend, IsTextOf;
    var w, v, u := TextParts(text, t, conv);
    TextStands(text, w, v, u);
    DescendMeaning(v, path, conv);
    PathFound(text, 0, w, v, path);
    SpanIsText(text, Query(text, 0, path), Descend(v, path).value, conv);
  }

  // ---- where the lookup finds nothing ----

  /** The last element is passed over, up to the closing bracket. */
  lemma LastElement(s: Bytes, i: nat, es: Elements, n: nat)
    requires ValidElements(es) && At(s, i, ElementsText(es)) && n > 0 && es.rest.NoElement?
    ensures s != [] && i <= |s| && ArrayElem(s, i, n) == Stopped(IndexOutOfRange)
  {
    hide At, Skip, IsBlank, Text, Valid, ValidElements, Ends, SafeSkip, PastValue, FindToken, ElementsText, AllBare;
    ElementParts(es);
    var next := ElementStands(s, i, es);
    ValueFound(s, i, es.before, es.v);
    ValuePassed(s, i + |es.before|, es.v, ELEMENT_TOKENS);
    BlankBare(es.after);
    BareRun(s, i + |es.before| + |Text(es.v)|, es.after, ELEMENT_TOKENS);
    FoundToken(s, next, ELEMENT_TOKENS);
  }

  lemma {:induction false} ElementMissing(s: Bytes, i: nat, es: Elements, n: nat)
    requires ValidElements(es) && At(s, i, ElementsText(es)) && FindElement(es, n) == None
    ensures s != [] && i <= |s| && ArrayElem(s, i, n) == Stopped(IndexOutOfRange)
    decreases es
  {
    hide At, Skip, IsBlank, Text, Valid, ValidElements, ArrayElem, ElementsText;
    ElementParts(es);
    var next := ElementStands(s, i, es);
    if es.rest.Then? {
      ElementPassed(s, i, es, n);
      ElementMissing(s, next + 1, es.rest.more, n - 1);
    } else {
      LastElement(s, i, es, n);
    }
  }

  /** The last member, under another name. */
  lemma LastKey(s: Bytes, i: nat, ps: Pairs, name: Bytes, rest: seq<Step>)
    requires ValidPairs(ps) && At(s, i, PairsText(ps)) && ps.rest.NoPair?
    requires ValidPieces(ps.key) && PiecesMeaning(ps.key) != name
    ensures s != [] && i <= |s| && FromKey(s, i, name, rest) == Failed(UnknownObjKey)
  {
    hide At, Skip, IsBlank, Text, Valid, ValidPairs, ValidPieces, StringText, PiecesMeaning, FindToken, ScanString,
      QuoteEnd, MorePairsText, PairsText, SafeSkip, PastValue, Query, AllBare, KeyAt;
    PairParts(ps);
    var j, colon := KeyStands(s, i, ps);
    var p := colon + 1;
    var next := MemberStands(s, p, ps);
    ValueFound(s, p, ps.c, ps.v);
    ValuePassed(s, p + |ps.c|, ps.v, KEY_TOKENS);
    BlankBare(ps.d);
    BareRun(s, p + |ps.c| + |Text(ps.v)|, ps.d, KEY_TOKENS);
    NoMorePairs(s, next);
    FoundToken(s, next, KEY_TOKENS);
  }

  lemma NoMorePairs(s: Bytes, i: nat)
    requires At(s, i, MorePairsText(NoPair))
    ensures i < |s| && s[i] == CLOSE_OBJECT
  {
    AtByte(s, i, CLOSE_OBJECT);
  }

  lemma {:induction false} KeyMissing(s: Bytes, i: nat, ps: Pairs, name: Bytes, rest: seq<Step>)
    requires ValidPairs(ps) && At(s, i, PairsText(ps)) && FindPair(ps, name) == None
    ensures s != [] && i <= |s| && FromKey(s, i, name, rest) == Failed(UnknownObjKey)
    decreases ps
  {
    hide At, Skip, IsBlank, Text, Valid, ValidPairs, PiecesMeaning, MorePairsText, PairsText, Query, FromKey;
    PairParts(ps);
    if ps.rest.ThenPair? {
      var p := KeyStep(s, i, ps, name, rest);
      KeyMissing(s, p + |ps.c| + |Text(ps.v)| + |ps.d| + 1, ps.rest.more, name, rest);
    } else {
      LastKey(s, i, ps, name, rest);
    }
  }

  /** No value starts with a closing bracket. */
  lemma NothingHere(s: Bytes, i: nat, path: seq<Step>)
    requires s != [] && i <= |s| && SafeSkip(s, i) > 0 && Peek(s, SafeSkip(s, i) - 1) == CLOSE_ARRAY
    ensures Query(s, i, path) == Failed(if path == [] then BadCharacter else MismatchType)
  {
    hide SafeSkip, ArrayElem, QueryKey, FindToken;
  }

  lemma EmptyObjectKey(s: Bytes, i: nat, blank: Bytes, name: Bytes, rest: seq<Step>)
    requires IsBlank(blank) && At(s, i, blank + [CLOSE_OBJECT])
    ensures s != [] && i <= |s| && FromKey(s, i, name, rest) == Failed(UnknownObjKey)
  {
    hide IsBlank, At, QueryKey, FindToken, AllBare;
    AtConcat(s, i, blank, [CLOSE_OBJECT]);
    AtByte(s, i + |blank|, CLOSE_OBJECT);
    BlankBare(blank);
    BareRun(s, i, blank, KEY_TOKENS);
    FoundToken(s, i + |blank|, KEY_TOKENS);
  }

  lemma EmptyArrayStart(s: Bytes, i: nat, blank: Bytes, path: seq<Step>)
    requires IsBlank(blank) && At(s, i, blank + [CLOSE_ARRAY])
    ensures s != [] && i <= |s| && Query(s, i, path) == Failed(if path == [] then BadCharacter else MismatchType)
  {
    hide IsBlank, At, Query, Skip;
    assert !IsSpace(CLOSE_ARRAY);
    SkipTo(s, i, blank, [CLOSE_ARRAY]);
    AtInside(s, i + |blank|, [CLOSE_ARRAY]);
    NothingHere(s, i, path);
  }

  lemma EmptyValue(v: Value)
    requires Valid(v)
    ensures v.EmptyObject? ==> IsBlank(v.blank) && Text(v) == [OPEN_OBJECT] + (v.blank + [CLOSE_OBJECT])
    ensures v.EmptyArray? ==> IsBlank(v.blank) && Text(v) == [OPEN_ARRAY] + (v.blank + [CLOSE_ARRAY])
  {}

  lemma NoElementAt(s: Bytes, p: nat, n: int)
    requires s != [] && p <= |s|
    ensures n < 0 ==> ArrayElem(s, p, n) == Stopped(BadCharacter)
    ensures n == 0 ==> ArrayElem(s, p, n) == Reached(p)
  {
    hide SafeSkip, PastValue, FindToken;
  }

  /** The error of a step that leads nowhere in a value. */
  function MissedIn(v: Value, path: seq<Step>): QueryError
    requires path != []
  {
    match path[0]
    case Key(_) => if v.ObjectValue? || v.EmptyObject? then UnknownObjKey else MismatchType
    case Index(n) =>
      if !v.ArrayValue? && !v.EmptyArray? then MismatchType
      else if n < 0 then BadCharacter
      else if v.ArrayValue? then IndexOutOfRange
      else if path[1..] == [] then BadCharacter
      else MismatchType
  }

  lemma NoSuchKey(s: Bytes, i: nat, w: Bytes, v: Value, path: seq<Step>)
    requires Valid(v) && Stands(s, i, w, v) && path != [] && path[0].Key? && Child(v, path[0]) == None
    ensures s != [] && i <= |s| && Query(s, i, path) == Failed(MissedIn(v, path))
  {
    hide At, Skip, IsBlank, Ends, Text, ElementsText, PairsText, SafeSkip, FindToken, ArrayElem, QueryKey, FromKey,
      FindElement, FindPair, Stands, Valid, ValidElements, ValidPairs;
    OpenedValue(v);
    EmptyValue(v);
    StandsHere(s, i, w, v);
    ValueFound(s, i, w, v);
    FirstOf(v);
    var j := i + |w|;
    if v.ObjectValue? {
      FirstByte(s, j, OPEN_OBJECT, PairsText(v.pairs));
      KeyMissing(s, j + 1, v.pairs, path[0].name, path[1..]);
      KeyQuery(s, i, j + 1, path);
    } else if v.EmptyObject? {
      FirstByte(s, j, OPEN_OBJECT, v.blank + [CLOSE_OBJECT]);
      EmptyObjectKey(s, j + 1, v.blank, path[0].name, path[1..]);
      KeyQuery(s, i, j + 1, path);
    }
  }

  lemma NoSuchIndex(s: Bytes, i: nat, w: Bytes, v: Value, path: seq<Step>)
    requires Valid(v) && Stands(s, i, w, v) && path != [] && path[0].Index? && Child(v, path[0]) == None
    requires !(v.EmptyArray? && path[0].i > 0)
    ensures s != [] && i <= |s| && Query(s, i, path) == Failed(MissedIn(v, path))
  {
    hide At, Skip, IsBlank, Ends, Text, ElementsText, PairsText, SafeSkip, FindToken, ArrayElem, QueryKey, FromKey,
      FindElement, FindPair, Stands, Valid, ValidElements, ValidPairs;
    OpenedValue(v);
    EmptyValue(v);
    StandsHere(s, i, w, v);
    ValueFound(s, i, w, v);
    FirstOf(v);
    var j, n := i + |w|, path[0].i;
    if v.ArrayValue? || v.EmptyArray? {
      NoElementAt(s, j + 1, n);
    }
    if v.ArrayValue? && n >= 0 {
      FirstByte(s, j, OPEN_ARRAY, ElementsText(v.elements));
      ElementMissing(s, j + 1, v.elements, n);
    } else if v.EmptyArray? && n == 0 {
      FirstByte(s, j, OPEN_ARRAY, v.blank + [CLOSE_ARRAY]);
      EmptyArrayStart(s, j + 1, v.blank, path[1..]);
    }
  }

  /** A step that leads nowhere fails the query, unless it is a positive index into an empty array. */
  lemma ChildMissing(s: Bytes, i: nat, w: Bytes, v: Value, path: seq<Step>)
    requires Valid(v) && Stands(s, i, w, v) && path != [] && Child(v, path[0]) == None
    requires !(v.EmptyArray? && path[0].Index? && path[0].i > 0)
    ensures s != [] && i <= |s| && Query(s, i, path) == Failed(MissedIn(v, path))
  {
    hide Stands, Valid, Child, Query;
    match path[0]
    case Key(_) => NoSuchKey(s, i, w, v, path);
    case Index(_) => NoSuchIndex(s, i, w, v, path);
  }

  /** Somewhere on its way the path asks an empty array for an element after the first. */
  predicate Strays(t: Tree, path: seq<Step>)
    decreases |path|
  {
    path != [] &&
    ((t == Array([]) && path[0].Index? && path[0].i > 0) ||
     match AtPointer(t, [path[0]]) case None => false case Some(x) => Strays(x, path[1..]))
  }

  lemma StraysStep(t: Tree, path: seq<Step>)
    requires path != [] && !Strays(t, path)
    ensures !(t == Array([]) && path[0].Index? && path[0].i > 0)
    ensures AtPointer(t, [path[0]]).Some? ==> !Strays(AtPointer(t, [path[0]]).value, path[1..])
  {
    hide AtPointer;
  }

  lemma EmptyMeaning(v: Value, conv: Conversion)
    requires Valid(v) && Meaning(v, conv).Some?
    ensures v.EmptyArray? <==> Meaning(v, conv).value == Array([])
    ensures v.EmptyArray? || v.ArrayValue? <==> Meaning(v, conv).value.Array?
    ensures v.EmptyObject? || v.ObjectValue? <==> Meaning(v, conv).value.Object?
  {
    hide NumberText, PiecesMeaning;
  }

  /** The error of a path that leads nowhere, from the last value it reaches: a key there asks something else than
      an object or an object without the key; an index asks something else than an array, or is negative, or too
      large.  Index 0 goes into an empty array and fails on its bracket.  (Of no meaning for other paths.) */
  function LookupError(t: Tree, path: seq<Step>): QueryError
    requires path != []
    decreases |path|
  {
    match AtPointer(t, [path[0]])
    case Some(x) => if path[1..] == [] then BadCharacter else LookupError(x, path[1..])
    case None =>
      match path[0]
      case Key(_) => if t.Object? then UnknownObjKey else MismatchType
      case Index(n) =>
        if !t.Array? then MismatchType
        else if n < 0 then BadCharacter
        else if t.items != [] then IndexOutOfRange
        else if |path| == 1 then BadCharacter
        else MismatchType
  }

  lemma MissedHere(v: Value, path: seq<Step>, conv: Conversion)
    requires Valid(v) && Meaning(v, conv).Some? && path != []
    requires AtPointer(Meaning(v, conv).value, [path[0]]) == None
    ensures LookupError(Meaning(v, conv).value, path) == MissedIn(v, path)
  {
    hide AtPointer, Meaning, Valid;
    EmptyMeaning(v, conv);
  }

  lemma ErrorStep(t: Tree, path: seq<Step>)
    requires path != [] && path[1..] != [] && AtPointer(t, [path[0]]).Some?
    ensures LookupError(t, path) == LookupError(AtPointer(t, [path[0]]).value, path[1..])
  {
    hide AtPointer;
  }

  lemma {:induction false} PathMissing(s: Bytes, i: nat, w: Bytes, v: Value, path: seq<Step>, conv: Conversion)
    requires Valid(v) && Stands(s, i, w, v) && Meaning(v, conv).Some?
    requires AtPointer(Meaning(v, conv).value, path) == None && !Strays(Meaning(v, conv).value, path)
    ensures s != [] && i <= |s| && path != []
    ensures Query(s, i, path) == Failed(LookupError(Meaning(v, conv).value, path))
    decreases |path|
  {
    hide Stands, Child, Valid, Meaning, AtPointer, Strays, LookupError, MissedIn;
    var t := Meaning(v, conv).value;
    PointerEnd(t, path[..0]);
    StraysStep(t, path);
    ChildMeaning(v, path[0], conv);
    PointerStep(t, path);
    EmptyMeaning(v, conv);
    if Child(v, path[0]) == None {
      ChildMissing(s, i, w, v, path);
      MissedHere(v, path, conv);
    } else {
      var q, x := ChildFound(s, i, w, v, path);
      hide Query;
      var u := Child(v, path[0]).value;
      PointerEnd(Meaning(u, conv).value, path[1..1]);
      PathMissing(s, q, x, u, path[1..], conv);
      ErrorStep(t, path);
    }
  }

  /** On paths that do not stray the query succeeds exactly when the lookup does. */
  lemma LookupExact(text: Bytes, t: Tree, path: seq<Step>, conv: Conversion)
    requires IsTextOf(text, t, conv) && !Strays(t, path)
    ensures text != []
    ensures Query(text, 0, path).Found? <==> AtPointer(t, path).Some?
    ensures AtPointer(t, path) == None ==> path != [] && Query(text, 0, path) == Failed(LookupError(t, path))
  {
    hide Text, IsBlank, Valid, Meaning, AtPointer, Stands, Query, IsTextOf, Strays, LookupError;
    if AtPointer(t, path).Some? {
      LookupAgrees(text, t, path, conv);
    } else {
      var w, v, u := TextParts(text, t, conv);
      TextStands(text, w, v, u);
      PathMissing(text, 0, w, v, path, conv);
    }
  }

  /** A positive index into an empty array goes on in what follows the array: to the next comma or closing
      bracket, and out of range only at a bracket or at the end of the text. */
  lemma EmptyArrayIndex(s: Bytes, i: nat, w: Bytes, v: Value, n: nat)
    requires v.EmptyArray? && Valid(v) && IsBlank(w) && At(s, i, w + Text(v)) && n > 0
    ensures var e := i + |w| + |Text(v)|;
            e <= |s| &&
            var t := FindToken(s, e, ELEMENT_TOKENS);
            ArrayElem(s, i + |w| + 1, n) ==
            if Peek(s, t) == COMMA then ArrayElem(s, t + 1, n - 1) else Stopped(IndexOutOfRange)
  {
    hide At, IsBlank, FindToken, Close, QuoteEnd, Skip, Valid, SafeSkip, Text;
    EmptyValue(v);
    ValueFound(s, i, w, v);
    var j := i + |w|;
    FirstByte(s, j, OPEN_ARRAY, v.blank + [CLOSE_ARRAY]);
    assert !IsSpace(CLOSE_ARRAY);
    SkipTo(s, j + 1, v.blank, [CLOSE_ARRAY]);
    AtInside(s, j + 1 + |v.blank|, [CLOSE_ARRAY]);
    SafeFound(s, j + 1, j + 1 + |v.blank|);
  }

  const STRAY_TEXT: Bytes := [OPEN_ARRAY, OPEN_ARRAY, CLOSE_ARRAY, COMMA, 0x37, CLOSE_ARRAY]

  lemma StrayIsText(conv: Conversion)
    ensures IsTextOf(STRAY_TEXT, Array([Array([]), Uint(7)]), conv)
  {
    var seven := NumberValue(Number(false, [7], [], NoExponent));
    var last := Elements([], seven, [], NoElement);
    var es := Elements([], EmptyArray([]), [], Then(last));
    var v := ArrayValue(es);
    assert Text(seven) == [0x37];
    assert ElementsText(last) == [0x37, CLOSE_ARRAY];
    assert Text(EmptyArray([])) == [OPEN_ARRAY, CLOSE_ARRAY];
    assert Text(v) == STRAY_TEXT;
    assert STRAY_TEXT == [] + (Text(v) + []);
    assert Meaning(seven, conv) == Some(Uint(7));
    assert ElementsMeaning(last, conv) == Some([Uint(7)]);
    assert ElementsMeaning(es, conv) == Some([Array([])] + [Uint(7)]);
    assert [Array([])] + [Uint(7)] == [Array([]), Uint(7)];
    assert Meaning(v, conv) == Some(Array([Array([]), Uint(7)]));
    NoBlank();
    assert Valid(v);
    hide Text, Meaning, Valid;
  }

  /** On [[],7] the path 0, 1 leads nowhere in the tree, but the query gets out of the empty array and
      answers with the 7. */
  lemma StrayIsFound(conv: Conversion)
    ensures var path := [Index(0), Index(1)];
            IsTextOf(STRAY_TEXT, Array([Array([]), Uint(7)]), conv) &&
            AtPointer(Array([Array([]), Uint(7)]), path) == None && Query(STRAY_TEXT, 0, path) == Found(4, 5)
  {
    StrayIsText(conv);
    var s := STRAY_TEXT;
    var path := [Index(0), Index(1)];
    assert path[1..] == [Index(1)] && path[1..][1..] == [];
    SafeStop(s, 0);
    SafeStop(s, 1);
    SafeStop(s, 2);
    SafeStop(s, 4);
    FoundToken(s, 3, ELEMENT_TOKENS);
    FoundToken(s, 5, NUMBER_TOKENS);
    hide SafeSkip, FindToken, Skip, IsTextOf;
    assert ArrayElem(s, 1, 0) == Reached(1);
    assert ArrayElem(s, 4, 0) == Reached(4);
    assert ArrayElem(s, 2, 1) == Reached(4);
    hide ArrayElem;
    assert Query(s, 4, []) == Found(4, 5);
    assert Query(s, 1, [Index(1)]) == Query(s, 4, []);
    assert Query(s, 0, path) == Query(s, 1, [Index(1)]);
  }
}
