/** A recursive-descent reading of a JSON text: the meaning the parser's goto machine is measured
    against.  It accepts exactly the spellings of the grammar, with the tree the grammar gives. */
module Reference {
  import opened Options
  import opened Json
  import opened Lexer

  datatype Parsed = Parsed(tree: Tree, end: nat)
  datatype ParsedItems = ParsedItems(items: seq<Tree>, end: nat)
  datatype ParsedMembers = ParsedMembers(members: seq<Member>, end: nat)

  function ParseWord(s: Bytes, i: nat, word: Bytes, t: Tree): (r: Option<Parsed>)
    requires word != []
    ensures r.Some? ==> i < r.value.end <= |s|
  {
    if At(s, i, word) then Some(Parsed(t, i + |word|)) else None
  }

  /** A value that is not a container, at its first byte. */
  function ParsePrimitive(s: Bytes, i: nat, conv: Conversion): (r: Option<Parsed>)
    ensures r.Some? ==> i < r.value.end <= |s|
  {
    var c := Peek(s, i);
    if c == QUOTE then
      match ScanString(s, i + 1) case None => None case Some(x) => Some(Parsed(String(x.bytes), x.end))
    else if IsDigit(c) || c == MINUS then
      match ScanNumber(s, i)
      case None => None
      case Some(x) =>
        if Peek(s, x.end) == DOT then None
        else match NumberMeaning(x.n, conv) case None => None case Some(t) => Some(Parsed(t, x.end))
    else if c == 0x6e then ParseWord(s, i, NULL_WORD, Null)
    else if c == 0x74 then ParseWord(s, i, TRUE_WORD, Bool(true))
    else if c == 0x66 then ParseWord(s, i, FALSE_WORD, Bool(false))
    else None
  }

  function ParseValue(s: Bytes, i: nat, conv: Conversion): (r: Option<Parsed>)
    ensures r.Some? ==> i < r.value.end <= |s|
    decreases |s| - i, 0
  {
    var c := Peek(s, i);
    if c == OPEN_ARRAY then
      var j := Skip(s, i + 1);
      if Peek(s, j) == CLOSE_ARRAY then Some(Parsed(Array([]), j + 1))
      else match ParseElements(s, j, conv) case None => None case Some(x) => Some(Parsed(Array(x.items), x.end))
    else if c == OPEN_OBJECT then
      var j := Skip(s, i + 1);
      if Peek(s, j) == CLOSE_OBJECT then Some(Parsed(Object([]), j + 1))
      else match ParsePairs(s, j, conv) case None => None case Some(x) => Some(Parsed(Object(x.members), x.end))
    else ParsePrimitive(s, i, conv)
  }

  /** The elements from the first byte of one up to and including the closing bracket. */
  function ParseElements(s: Bytes, i: nat, conv: Conversion): (r: Option<ParsedItems>)
    ensures r.Some? ==> i < r.value.end <= |s|
    decreases |s| - i, 1
  {
    match ParseValue(s, i, conv)
    case None => None
    case Some(x) =>
      var j := Skip(s, x.end);
      if Peek(s, j) == CLOSE_ARRAY then Some(ParsedItems([x.tree], j + 1))
      else if Peek(s, j) != COMMA then None
      else
        match ParseElements(s, Skip(s, j + 1), conv)
        case None => None
        case Some(y) => Some(ParsedItems([x.tree] + y.items, y.end))
  }

  datatype ParsedKey = ParsedKey(key: Bytes, value: nat)

  /** A key and its colon; `value` is where the value starts. */
  function ParseKey(s: Bytes, i: nat): (r: Option<ParsedKey>)
    ensures r.Some? ==> i < r.value.value <= |s|
  {
    if Peek(s, i) != QUOTE then None
    else
      match ScanString(s, i + 1)
      case None => None
      case Some(k) =>
        var j := Skip(s, k.end);
        if Peek(s, j) == COLON then Some(ParsedKey(k.bytes, Skip(s, j + 1))) else None
  }

  function ParsePairs(s: Bytes, i: nat, conv: Conversion): (r: Option<ParsedMembers>)
    ensures r.Some? ==> i < r.value.end <= |s|
    decreases |s| - i, 1
  {
    match ParseKey(s, i)
    case None => None
    case Some(k) =>
      match ParseValue(s, k.value, conv)
      case None => None
      case Some(x) =>
        var j := Skip(s, x.end);
        var m := Member(k.key, x.tree);
        if Peek(s, j) == CLOSE_OBJECT then Some(ParsedMembers([m], j + 1))
        else if Peek(s, j) != COMMA then None
        else
          match ParsePairs(s, Skip(s, j + 1), conv)
          case None => None
          case Some(y) => Some(ParsedMembers([m] + y.members, y.end))
  }

  // ---- every spelling is read ----

  lemma FirstByte(s: Bytes, i: nat, c: byte, rest: Bytes)
    requires At(s, i, [c] + rest)
    ensures i < |s| && Peek(s, i) == c && At(s, i + 1, rest)
  {
    AtConcat(s, i, [c], rest);
    AtByte(s, i, c);
  }

  /** After the blanks `w` at i comes x: the scanner skips to x. */
  lemma SkipTo(s: Bytes, i: nat, w: Bytes, x: Bytes)
    requires IsBlank(w) && At(s, i, w + x) && x != [] && !IsSpace(x[0])
    ensures Skip(s, i) == i + |w| && At(s, i + |w|, x) && Peek(s, i + |w|) == x[0]
  {
    AtConcat(s, i, w, x);
    SkipComplete(s, i, w);
    assert s[i + |w|] == s[i + |w|..i + |w| + |x|][0];
  }

  lemma BlankFollows(s: Bytes, i: nat, w: Bytes, x: Bytes)
    requires IsBlank(w) && At(s, i, w + x) && x != [] && Follows(x[0])
    ensures Follows(Peek(s, i))
  {
    assert s[i] == s[i..i + |w + x|][0] == (w + x)[0];
  }

  /** How a value may start. */
  predicate Starts(c: byte) {
    c == OPEN_ARRAY || c == OPEN_OBJECT || c == QUOTE || c == MINUS || IsDigit(c) ||
    c == 0x6e || c == 0x74 || c == 0x66
  }

  lemma NumberStart(n: Number)
    requires ValidNumber(n)
    ensures NumberText(n) != [] && (NumberText(n)[0] == MINUS || IsDigit(NumberText(n)[0]))
  {
    var d := DigitText(n.whole);
    assert IsDigit(d[0]);
    var rest := FractionText(n.frac) + ExponentText(n.exp);
    assert (d + rest)[0] == d[0];
    assert NumberText(n)[0] == (SignText(n.neg) + (d + rest))[0];
  }

  lemma ValueStart(v: Value)
    requires Valid(v)
    ensures Text(v) != [] && Starts(Text(v)[0])
  {
    hide NumberText, ElementsText, PairsText, PiecesText;
    if v.NumberValue? {
      NumberStart(v.n);
    }
  }

  /** What reading v from i gives. */
  function Outcome(v: Value, i: nat, conv: Conversion): Option<Parsed>
    requires Valid(v)
  {
    match Meaning(v, conv) case None => None case Some(t) => Some(Parsed(t, i + |Text(v)|))
  }

  lemma WordComplete(s: Bytes, i: nat, v: Value, conv: Conversion)
    requires v.NullValue? || v.TrueValue? || v.FalseValue?
    requires At(s, i, Text(v))
    ensures ParseValue(s, i, conv) == Outcome(v, i, conv)
  {
    FirstByte(s, i, Text(v)[0], Text(v)[1..]) by { assert Text(v) == [Text(v)[0]] + Text(v)[1..]; }
  }

  lemma NumberValueComplete(s: Bytes, i: nat, v: Value, conv: Conversion)
    requires v.NumberValue? && Valid(v) && At(s, i, Text(v)) && Follows(Peek(s, i + |Text(v)|))
    ensures ParseValue(s, i, conv) == Outcome(v, i, conv)
  {
    hide NumberText, ScanNumber, ValidNumber, NumberMeaning, At;
    var t := NumberText(v.n);
    NumberStart(v.n);
    assert t == [t[0]] + t[1..];
    FirstByte(s, i, t[0], t[1..]);
    NumberComplete(s, i, v.n);
  }

  lemma StringValueComplete(s: Bytes, i: nat, v: Value, conv: Conversion)
    requires v.StringValue? && Valid(v) && At(s, i, Text(v))
    ensures ParseValue(s, i, conv) == Outcome(v, i, conv)
  {
    hide PiecesText, PiecesMeaning, At, ScanString;
    Associate([QUOTE], PiecesText(v.ps), [QUOTE]);
    FirstByte(s, i, QUOTE, PiecesText(v.ps) + [QUOTE]);
    StringComplete(s, i + 1, v.ps);
  }

  lemma EmptyComplete(s: Bytes, i: nat, v: Value, conv: Conversion)
    requires (v.EmptyArray? || v.EmptyObject?) && Valid(v) && At(s, i, Text(v))
    ensures ParseValue(s, i, conv) == Outcome(v, i, conv)
  {
    hide At, ParseElements, ParsePairs, Skip, IsBlank;
    var c, d := if v.EmptyArray? then OPEN_ARRAY else OPEN_OBJECT, if v.EmptyArray? then CLOSE_ARRAY else CLOSE_OBJECT;
    FirstByte(s, i, c, v.blank + [d]);
    SkipTo(s, i + 1, v.blank, [d]);
  }

  lemma {:induction false} ValueComplete(s: Bytes, i: nat, v: Value, conv: Conversion)
    requires Valid(v) && At(s, i, Text(v)) && Follows(Peek(s, i + |Text(v)|))
    ensures ParseValue(s, i, conv) == Outcome(v, i, conv)
    decreases v, 0
  {
    hide At, NumberText, StringText, ElementsText, PairsText, ParseElements, ParsePairs, ParsePrimitive, Skip, IsSpace,
      NumberMeaning;
    match v
    case NullValue => WordComplete(s, i, v, conv);
    case TrueValue => WordComplete(s, i, v, conv);
    case FalseValue => WordComplete(s, i, v, conv);
    case NumberValue(n) => NumberValueComplete(s, i, v, conv);
    case StringValue(ps) => StringValueComplete(s, i, v, conv);
    case EmptyArray(blank) => EmptyComplete(s, i, v, conv);
    case EmptyObject(blank) => EmptyComplete(s, i, v, conv);
    case ArrayValue(es) =>
      FirstByte(s, i, OPEN_ARRAY, ElementsText(es));
      ElementsComplete(s, i + 1, es, conv);
    case ObjectValue(ps) =>
      FirstByte(s, i, OPEN_OBJECT, PairsText(ps));
      PairsComplete(s, i + 1, ps, conv);
  }

  /** A value, the blanks after it and the punctuation that ends it. */
  lemma {:induction false} ThroughValue(s: Bytes, j: nat, v: Value, after: Bytes, more: Bytes, conv: Conversion)
    requires Valid(v) && IsBlank(after) && At(s, j, Text(v) + (after + more))
    requires more != [] && (more[0] == COMMA || more[0] == CLOSE_ARRAY || more[0] == CLOSE_OBJECT)
    ensures ParseValue(s, j, conv) == Outcome(v, j, conv)
    ensures var m := j + |Text(v)| + |after|;
            Skip(s, j + |Text(v)|) == m && Peek(s, m) == more[0] && At(s, m, more)
    decreases v, 1
  {
    hide At, Text, Skip, ParseValue, IsBlank, IsSpace;
    AtConcat(s, j, Text(v), after + more);
    NotBlank(more[0]);
    BlankFollows(s, j + |Text(v)|, after, more);
    ValueComplete(s, j, v, conv);
    SkipTo(s, j + |Text(v)|, after, more);
  }

  function ElementsOutcome(es: Elements, i: nat, conv: Conversion): Option<ParsedItems>
    requires ValidElements(es)
  {
    match ElementsMeaning(es, conv)
    case None => None
    case Some(ts) => Some(ParsedItems(ts, i + |ElementsText(es)|))
  }

  /** One element, then the closing bracket at m or a comma and the remaining elements. */
  lemma ElementsStep(s: Bytes, i: nat, es: Elements, m: nat, conv: Conversion)
    requires ValidElements(es) && m == i + |es.before| + |Text(es.v)| + |es.after|
    requires ParseValue(s, i + |es.before|, conv) == Outcome(es.v, i + |es.before|, conv)
    requires Skip(s, i + |es.before| + |Text(es.v)|) == m
    requires Peek(s, m) == if es.rest.Then? then COMMA else CLOSE_ARRAY
    requires es.rest.Then? ==>
               ParseElements(s, Skip(s, m + 1), conv) == ElementsOutcome(es.rest.more, m + 1, conv)
    ensures ParseElements(s, i + |es.before|, conv) == ElementsOutcome(es, i, conv)
  {
    hide At, Text, Skip, ParseValue, Meaning, Valid, IsBlank, IsSpace, Peek;
    assert |ElementsText(es)| == |es.before| + |Text(es.v)| + |es.after| + |MoreElementsText(es.rest)|;
    hide ElementsText;
  }

  lemma {:induction false} ElementsComplete(s: Bytes, i: nat, es: Elements, conv: Conversion)
    requires ValidElements(es) && At(s, i, ElementsText(es))
    ensures Peek(s, Skip(s, i)) != CLOSE_ARRAY
    ensures ParseElements(s, Skip(s, i), conv) == ElementsOutcome(es, i, conv)
    decreases es
  {
    hide At, Text, Skip, ParseValue, ParseElements, ElementsOutcome, Meaning, Valid, IsBlank, IsSpace;
    var v, more := Text(es.v), MoreElementsText(es.rest);
    ValueStart(es.v);
    NotBlank(v[0]);
    StartOf(v, es.after + more);
    SkipTo(s, i, es.before, v + (es.after + more));
    var j := i + |es.before|;
    ThroughValue(s, j, es.v, es.after, more, conv);
    var m := j + |v| + |es.after|;
    if es.rest.Then? {
      FirstByte(s, m, COMMA, ElementsText(es.rest.more));
      ElementsComplete(s, m + 1, es.rest.more, conv);
    }
    ElementsStep(s, i, es, m, conv);
  }

  lemma StartOf(x: Bytes, y: Bytes)
    requires x != []
    ensures (x + y)[0] == x[0]
  {}

  lemma NotBlank(c: byte)
    ensures Starts(c) || c == COMMA || c == CLOSE_ARRAY || c == CLOSE_OBJECT || c == COLON ==> !IsSpace(c)
    ensures Starts(c) ==> c != CLOSE_ARRAY && c != CLOSE_OBJECT
    ensures !Starts(c) || c != COMMA
  {}

  lemma {:induction false} KeyComplete(s: Bytes, i: nat, ps: Pairs, rest: Bytes)
    requires ValidPieces(ps.key) && IsBlank(ps.a) && IsBlank(ps.b) && IsBlank(ps.c)
    requires rest != [] && Starts(rest[0])
    requires At(s, i, ps.a + (StringText(ps.key) + (ps.b + ([COLON] + (ps.c + rest)))))
    ensures var j := i + |ps.a| + |StringText(ps.key)| + |ps.b| + 1 + |ps.c|;
            ParseKey(s, Skip(s, i)) == Some(ParsedKey(PiecesMeaning(ps.key), j)) && At(s, j, rest)
    ensures Peek(s, Skip(s, i)) == QUOTE
  {
    hide At, Skip, PiecesMeaning, PiecesText, ScanString, IsBlank, IsSpace;
    var key, tail := PiecesText(ps.key) + [QUOTE], ps.b + ([COLON] + (ps.c + rest));
    Associate([QUOTE], PiecesText(ps.key), [QUOTE]);
    NotBlank(QUOTE);
    StartOf(StringText(ps.key), tail);
    SkipTo(s, i, ps.a, StringText(ps.key) + tail);
    var j := i + |ps.a|;
    AtConcat(s, j, StringText(ps.key), tail);
    FirstByte(s, j, QUOTE, key);
    StringComplete(s, j + 1, ps.key);
    var k := j + |StringText(ps.key)|;
    NotBlank(COLON);
    StartOf([COLON], ps.c + rest);
    SkipTo(s, k, ps.b, [COLON] + (ps.c + rest));
    FirstByte(s, k + |ps.b|, COLON, ps.c + rest);
    NotBlank(rest[0]);
    SkipTo(s, k + |ps.b| + 1, ps.c, rest);
  }

  function PairsOutcome(ps: Pairs, i: nat, conv: Conversion): Option<ParsedMembers>
    requires ValidPairs(ps)
  {
    match PairsMeaning(ps, conv)
    case None => None
    case Some(ms) => Some(ParsedMembers(ms, i + |PairsText(ps)|))
  }

  lemma PairsStep(s: Bytes, i: nat, ps: Pairs, j: nat, m: nat, conv: Conversion)
    requires ValidPairs(ps) && j == i + |ps.a| + |StringText(ps.key)| + |ps.b| + 1 + |ps.c|
    requires m == j + |Text(ps.v)| + |ps.d|
    requires ParseKey(s, Skip(s, i)) == Some(ParsedKey(PiecesMeaning(ps.key), j))
    requires ParseValue(s, j, conv) == Outcome(ps.v, j, conv)
    requires Skip(s, j + |Text(ps.v)|) == m
    requires Peek(s, m) == if ps.rest.ThenPair? then COMMA else CLOSE_OBJECT
    requires ps.rest.ThenPair? ==>
               ParsePairs(s, Skip(s, m + 1), conv) == PairsOutcome(ps.rest.more, m + 1, conv)
    ensures ParsePairs(s, Skip(s, i), conv) == PairsOutcome(ps, i, conv)
  {
    hide At, Text, Skip, ParseValue, ParseKey, Meaning, Valid, IsBlank, IsSpace, Peek, StringText, PiecesMeaning;
    assert |PairsText(ps)| == |ps.a| + |StringText(ps.key)| + |ps.b| + 1 + |ps.c| + |Text(ps.v)| + |ps.d| +
                              |MorePairsText(ps.rest)|;
    hide PairsText;
  }

  lemma {:induction false} PairsComplete(s: Bytes, i: nat, ps: Pairs, conv: Conversion)
    requires ValidPairs(ps) && At(s, i, PairsText(ps))
    ensures Peek(s, Skip(s, i)) != CLOSE_OBJECT
    ensures ParsePairs(s, Skip(s, i), conv) == PairsOutcome(ps, i, conv)
    decreases ps
  {
    hide At, Text, Skip, ParseValue, ParseKey, ParsePairs, PairsOutcome, Meaning, Valid, IsBlank, IsSpace, StringText,
      PiecesMeaning;
    var v, more := Text(ps.v), MorePairsText(ps.rest);
    ValueStart(ps.v);
    StartOf(v, ps.d + more);
    KeyComplete(s, i, ps, v + (ps.d + more));
    var j := i + |ps.a| + |StringText(ps.key)| + |ps.b| + 1 + |ps.c|;
    ThroughValue(s, j, ps.v, ps.d, more, conv);
    var m := j + |v| + |ps.d|;
    if ps.rest.ThenPair? {
      FirstByte(s, m, COMMA, PairsText(ps.rest.more));
      PairsComplete(s, m + 1, ps.rest.more, conv);
    }
    PairsStep(s, i, ps, j, m, conv);
  }

  // ---- nothing else is read ----

  lemma PrimitiveSound(s: Bytes, i: nat, conv: Conversion) returns (v: Value)
    requires ParsePrimitive(s, i, conv).Some?
    ensures var x := ParsePrimitive(s, i, conv).value;
            Valid(v) && Text(v) == s[i..x.end] && Meaning(v, conv) == Some(x.tree)
  {
    hide NumberMeaning, ScanNumber, ScanString, NumberText, ValidNumber, PiecesText, PiecesMeaning;
    var c := Peek(s, i);
    var x := ParsePrimitive(s, i, conv).value;
    if c == QUOTE {
      var ps := StringSound(s, i + 1);
      v := StringValue(ps);
      Associate([QUOTE], PiecesText(ps), [QUOTE]);
      SliceJoin(s, i, i + 1, x.end);
      assert s[i..i + 1] == [QUOTE];
    } else if IsDigit(c) || c == MINUS {
      NumberSound(s, i);
      v := NumberValue(ScanNumber(s, i).value.n);
    } else if c == 0x6e {
      v := NullValue;
    } else if c == 0x74 {
      v := TrueValue;
    } else {
      v := FalseValue;
    }
  }

  lemma {:induction false} ValueSound(s: Bytes, i: nat, conv: Conversion) returns (v: Value)
    requires ParseValue(s, i, conv).Some?
    ensures var x := ParseValue(s, i, conv).value;
            Valid(v) && Text(v) == s[i..x.end] && Meaning(v, conv) == Some(x.tree)
    decreases |s| - i, 0
  {
    hide ParsePrimitive, ParseElements, ParsePairs, Skip, IsBlank;
    var c, x := Peek(s, i), ParseValue(s, i, conv).value;
    if c != OPEN_ARRAY && c != OPEN_OBJECT {
      v := PrimitiveSound(s, i, conv);
    } else {
      var j := Skip(s, i + 1);
      var blank := s[i + 1..j];
      SkipSound(s, i + 1);
      SliceJoin(s, i, i + 1, x.end);
      SliceJoin(s, i + 1, j, x.end);
      assert s[i..i + 1] == [c];
      if c == OPEN_ARRAY && Peek(s, j) == CLOSE_ARRAY {
        assert s[j..x.end] == [CLOSE_ARRAY];
        v := EmptyArray(blank);
      } else if c == OPEN_ARRAY {
        var es := ElementsSound(s, j, conv);
        v := ArrayValue(es.(before := blank));
        WithBefore(es, blank, conv);
      } else if Peek(s, j) == CLOSE_OBJECT {
        assert s[j..x.end] == [CLOSE_OBJECT];
        v := EmptyObject(blank);
      } else {
        var ps := PairsSound(s, j, conv);
        v := ObjectValue(ps.(a := blank));
        WithBlank(ps, blank, conv);
      }
    }
  }

  lemma WithBefore(es: Elements, w: Bytes, conv: Conversion)
    requires ValidElements(es) && es.before == [] && IsBlank(w)
    ensures ValidElements(es.(before := w)) && ElementsText(es.(before := w)) == w + ElementsText(es)
    ensures ElementsMeaning(es.(before := w), conv) == ElementsMeaning(es, conv)
  {}

  lemma WithBlank(ps: Pairs, w: Bytes, conv: Conversion)
    requires ValidPairs(ps) && ps.a == [] && IsBlank(w)
    ensures ValidPairs(ps.(a := w)) && PairsText(ps.(a := w)) == w + PairsText(ps)
    ensures PairsMeaning(ps.(a := w), conv) == PairsMeaning(ps, conv)
  {}

  /** The comma at j and the elements after it. */
  lemma {:induction false} MoreSound(s: Bytes, j: nat, conv: Conversion) returns (es: Elements)
    requires Peek(s, j) == COMMA && ParseElements(s, Skip(s, j + 1), conv).Some?
    ensures var x := ParseElements(s, Skip(s, j + 1), conv).value;
            ValidElements(es) && MoreElementsText(Then(es)) == s[j..x.end] &&
            ElementsMeaning(es, conv) == Some(x.items)
    decreases |s| - j, 0
  {
    hide ParseElements, Skip, IsBlank, ValidElements, ElementsText, ElementsMeaning;
    var k := Skip(s, j + 1);
    var end := ParseElements(s, k, conv).value.end;
    SkipSound(s, j + 1);
    var rest := ElementsSound(s, k, conv);
    WithBefore(rest, s[j + 1..k], conv);
    SliceJoin(s, j, j + 1, end);
    SliceJoin(s, j + 1, k, end);
    assert s[j..j + 1] == [COMMA];
    es := rest.(before := s[j + 1..k]);
  }

  lemma JoinElement(s: Bytes, i: nat, a: nat, b: nat, end: nat, v: Value, rest: MoreElements)
    requires i <= a <= b <= end <= |s|
    requires Text(v) == s[i..a] && MoreElementsText(rest) == s[b..end]
    ensures ElementsText(Elements([], v, s[a..b], rest)) == s[i..end]
  {
    hide Text, MoreElementsText;
    SliceJoin(s, i, a, end);
    SliceJoin(s, a, b, end);
  }

  lemma {:induction false} ElementsSound(s: Bytes, i: nat, conv: Conversion) returns (es: Elements)
    requires ParseElements(s, i, conv).Some?
    ensures var x := ParseElements(s, i, conv).value;
            ValidElements(es) && es.before == [] && ElementsText(es) == s[i..x.end] &&
            ElementsMeaning(es, conv) == Some(x.items)
    decreases |s| - i, 1
  {
    hide ParseValue, Skip, IsBlank, Text, Valid, Meaning, ElementsText;
    var v := ValueSound(s, i, conv);
    var x, end := ParseValue(s, i, conv).value, ParseElements(s, i, conv).value.end;
    var j := Skip(s, x.end);
    SkipSound(s, x.end);
    NoBlank();
    var rest := NoElement;
    if Peek(s, j) == COMMA {
      var more := MoreSound(s, j, conv);
      rest := Then(more);
    } else {
      assert s[j..end] == [CLOSE_ARRAY];
    }
    es := Elements([], v, s[x.end..j], rest);
    JoinElement(s, i, x.end, j, end, v, rest);
    hide MoreElementsText;
  }

  lemma NoBlank()
    ensures IsBlank([])
  {}

  lemma KeySound(s: Bytes, i: nat) returns (ps: seq<Piece>, b: Bytes, c: Bytes)
    requires ParseKey(s, i).Some?
    ensures var k := ParseKey(s, i).value;
            ValidPieces(ps) && IsBlank(b) && IsBlank(c) && PiecesMeaning(ps) == k.key &&
            StringText(ps) + (b + ([COLON] + c)) == s[i..k.value]
  {
    hide ScanString, Skip, IsBlank, PiecesText, PiecesMeaning;
    ps := StringSound(s, i + 1);
    var e := ScanString(s, i + 1).value.end;
    var j := Skip(s, e);
    var k := Skip(s, j + 1);
    b, c := s[e..j], s[j + 1..k];
    SkipSound(s, e);
    SkipSound(s, j + 1);
    Associate([QUOTE], PiecesText(ps), [QUOTE]);
    assert s[i..e] == [QUOTE] + s[i + 1..e];
    SliceJoin(s, i, e, k);
    SliceJoin(s, e, j, k);
    SliceJoin(s, j, j + 1, k);
    assert s[j..j + 1] == [COLON];
  }

  lemma Flatten(w: Bytes, b: Bytes, c: Bytes, rest: Bytes)
    ensures w + (b + ([COLON] + (c + rest))) == (w + (b + ([COLON] + c))) + rest
  {}

  lemma {:induction false} MorePairsSound(s: Bytes, j: nat, conv: Conversion) returns (ps: Pairs)
    requires Peek(s, j) == COMMA && ParsePairs(s, Skip(s, j + 1), conv).Some?
    ensures var x := ParsePairs(s, Skip(s, j + 1), conv).value;
            ValidPairs(ps) && MorePairsText(ThenPair(ps)) == s[j..x.end] &&
            PairsMeaning(ps, conv) == Some(x.members)
    decreases |s| - j, 0
  {
    hide ParsePairs, Skip, IsBlank, ValidPairs, PairsText, PairsMeaning;
    var k := Skip(s, j + 1);
    var end := ParsePairs(s, k, conv).value.end;
    SkipSound(s, j + 1);
    var rest := PairsSound(s, k, conv);
    WithBlank(rest, s[j + 1..k], conv);
    SliceJoin(s, j, j + 1, end);
    SliceJoin(s, j + 1, k, end);
    assert s[j..j + 1] == [COMMA];
    ps := rest.(a := s[j + 1..k]);
  }

  lemma JoinPair(s: Bytes, i: nat, start: nat, a: nat, b: nat, end: nat, ps: Pairs)
    requires i <= start <= a <= b <= end <= |s| && ps.a == []
    requires StringText(ps.key) + (ps.b + ([COLON] + ps.c)) == s[i..start]
    requires Text(ps.v) == s[start..a] && ps.d == s[a..b] && MorePairsText(ps.rest) == s[b..end]
    ensures PairsText(ps) == s[i..end]
  {
    hide Text, MorePairsText, StringText;
    SliceJoin(s, i, start, end);
    SliceJoin(s, start, a, end);
    SliceJoin(s, a, b, end);
    Flatten(StringText(ps.key), ps.b, ps.c, Text(ps.v) + (ps.d + MorePairsText(ps.rest)));
  }

  lemma {:induction false} PairsSound(s: Bytes, i: nat, conv: Conversion) returns (ps: Pairs)
    requires ParsePairs(s, i, conv).Some?
    ensures var x := ParsePairs(s, i, conv).value;
            ValidPairs(ps) && ps.a == [] && PairsText(ps) == s[i..x.end] &&
            PairsMeaning(ps, conv) == Some(x.members)
    decreases |s| - i, 1
  {
    hide ParseKey, ParseValue, Skip, IsBlank, Text, Valid, Meaning, StringText, ValidPieces, PiecesMeaning, PairsText;
    var key, b, c := KeySound(s, i);
    var start, end := ParseKey(s, i).value.value, ParsePairs(s, i, conv).value.end;
    var v := ValueSound(s, start, conv);
    var x := ParseValue(s, start, conv).value;
    var j := Skip(s, x.end);
    SkipSound(s, x.end);
    NoBlank();
    var rest := NoPair;
    if Peek(s, j) == COMMA {
      var more := MorePairsSound(s, j, conv);
      rest := ThenPair(more);
    } else {
      assert s[j..end] == [CLOSE_OBJECT];
    }
    ps := Pairs([], key, b, c, v, s[x.end..j], rest);
    JoinPair(s, i, start, x.end, j, end, ps);
    hide MorePairsText;
  }
}
