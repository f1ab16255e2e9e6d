/** Printing and parsing are inverses on every tree with string keys only, given that each double is printed
    as a literal that reads as it. */
module RoundTrip {
  import opened Options
  import opened Json
  import opened Lexer
  import opened Sentinel
  import opened Quote
  import opened Itoa
  import opened Printer

  /** A double is printed as a literal that reads as it. */
  ghost predicate ReadsBack(bits: nat, ftoa: Ftoa, conv: Conversion) {
    ftoa(bits).Some? &&
    exists m: Number ::
      ValidNumber(m) && ftoa(bits).value == NumberText(m) && NumberMeaning(m, conv) == Some(Double(bits))
  }

  /** Doubles are printed as literals that read as them; with emoji escapes every string must be valid UTF-8. */
  ghost predicate Printable(n: SNode, style: Style, ftoa: Ftoa, conv: Conversion) {
    match n
    case SReal(bits) => ReadsBack(bits, ftoa, conv)
    case SString(s) => style.emoji ==> ValidUtf8(s)
    case SArray(cs) => forall k :: 0 <= k < |cs| ==> Printable(cs[k], style, ftoa, conv)
    case SObject(cs) => forall k :: 0 <= k < |cs| ==> Printable(cs[k], style, ftoa, conv)
    case _ => true
  }

  /** Nodes that stand for a document. */
  predicate Proper(n: SNode) { Shaped(n) && KeysOk(n) }

  /** Nodes that can be printed and read back. */
  ghost predicate Clean(n: SNode, style: Style, ftoa: Ftoa, conv: Conversion) {
    Proper(n) && Printable(n, style, ftoa, conv)
  }

  lemma ProperChild(n: SNode, k: nat)
    requires Proper(n) && IsContainer(n) && k < |n.children|
    ensures Proper(n.children[k])
  {}

  lemma CleanChild(n: SNode, k: nat, style: Style, ftoa: Ftoa, conv: Conversion)
    requires Clean(n, style, ftoa, conv) && IsContainer(n) && k < |n.children|
    ensures Clean(n.children[k], style, ftoa, conv) && Proper(n.children[k]) && Proper(n)
  {
    ProperChild(n, k);
    hide Proper, ReadsBack;
  }

  lemma CleanIsProper(n: SNode, style: Style, ftoa: Ftoa, conv: Conversion)
    requires Clean(n, style, ftoa, conv)
    ensures Proper(n)
  {}

  /** The document a node stands for. */
  function TreeOf(n: SNode): Tree
    requires Proper(n)
    decreases n, if IsContainer(n) then |n.children| + 1 else 0
  {
    match n
    case SNull => Null
    case SBool(b) => Bool(b)
    case SUint(u) => Uint(u)
    case SInt(i) => if i < 0 then Int(i) else Uint(i)
    case SReal(bits) => Double(bits)
    case SString(s) => String(s)
    case SArray(_) => Array(ItemsOf(n, 0))
    case SObject(_) => Object(MembersOf(n, 0))
  }

  function ItemsOf(n: SNode, k: nat): seq<Tree>
    requires Proper(n) && n.SArray? && k <= |n.children|
    decreases n, |n.children| - k
  {
    if k == |n.children| then []
    else
      ProperChild(n, k);
      [TreeOf(n.children[k])] + ItemsOf(n, k + 1)
  }

  function MembersOf(n: SNode, k: nat): seq<Member>
    requires Proper(n) && n.SObject? && k <= |n.children| && (|n.children| - k) % 2 == 0
    decreases n, |n.children| - k
  {
    if k == |n.children| then []
    else
      ProperChild(n, k + 1);
      [Member(n.children[k].s, TreeOf(n.children[k + 1]))] + MembersOf(n, k + 2)
  }

  lemma StringSpelled(s: Bytes, style: Style)
    requires style.emoji ==> ValidUtf8(s)
    ensures ValidPieces(Pieces(s, style)) && PiecesMeaning(Pieces(s, style)) == s
  {
    if style.emoji {
      UnquoteUtf8(s, style);
    } else {
      Unquote(s, style);
    }
  }

  /** v is a spelling of the node. */
  ghost predicate SpelledBy(v: Value, n: SNode, style: Style, ftoa: Ftoa, conv: Conversion)
    requires Clean(n, style, ftoa, conv)
  {
    Valid(v) && Text(v) == Print(n, style, ftoa) && Meaning(v, conv) == Some(TreeOf(n))
  }

  lemma ScalarSpelled(n: SNode, style: Style, ftoa: Ftoa, conv: Conversion) returns (v: Value)
    requires Clean(n, style, ftoa, conv) && !IsContainer(n)
    ensures SpelledBy(v, n, style, ftoa, conv)
  {
    hide Pieces, PiecesMeaning, PiecesText, ValidPieces, NumberText, NumberMeaning, ValidNumber, ValidUtf8;
    match n
    case SNull => v := NullValue;
    case SBool(b) => v := if b then TrueValue else FalseValue;
    case SUint(u) =>
      v := NumberValue(IntegerLiteral(u));
      IntegerReadsBack(u, conv);
    case SInt(i) =>
      v := NumberValue(IntegerLiteral(i));
      IntegerReadsBack(i, conv);
    case SReal(bits) =>
      var m: Number :| ValidNumber(m) && ftoa(bits).value == NumberText(m) &&
                       NumberMeaning(m, conv) == Some(Double(bits));
      v := NumberValue(m);
    case SString(s) =>
      v := StringValue(Pieces(s, style));
      StringSpelled(s, style);
  }

  /** The printed text of a node is a JSON text for its tree. */
  lemma {:induction false} Spelled(n: SNode, style: Style, ftoa: Ftoa, conv: Conversion) returns (v: Value)
    requires Clean(n, style, ftoa, conv)
    ensures SpelledBy(v, n, style, ftoa, conv)
    decreases n, if IsContainer(n) then |n.children| + 1 else 0
  {
    hide Clean, Items, ElementsText, PairsText, ElementsMeaning, PairsMeaning, ValidElements, ValidPairs;
    if !IsContainer(n) {
      v := ScalarSpelled(n, style, ftoa, conv);
    } else if n.children == [] {
      v := if n.SArray? then EmptyArray([]) else EmptyObject([]);
      EmptySpelled(n, style, ftoa, conv);
    } else if n.SArray? {
      var es := ElementsSpelled(n, 0, style, ftoa, conv);
      v := ArrayValue(es);
      var items := Items(n, 0, style, ftoa);
      Associate([OPEN_ARRAY], items[..|items| - 1], [CLOSE_ARRAY]);
    } else {
      CleanIsProper(n, style, ftoa, conv);
      ShapedPairs(n);
      var ps := PairsSpelled(n, 0, style, ftoa, conv);
      v := ObjectValue(ps);
      var items := Items(n, 0, style, ftoa);
      Associate([OPEN_OBJECT], items[..|items| - 1], [CLOSE_OBJECT]);
    }
  }

  lemma ShapedPairs(n: SNode)
    requires Proper(n) && n.SObject?
    ensures |n.children| % 2 == 0
  {}

  lemma EmptySpelled(n: SNode, style: Style, ftoa: Ftoa, conv: Conversion)
    requires Clean(n, style, ftoa, conv) && IsContainer(n) && n.children == []
    ensures SpelledBy(if n.SArray? then EmptyArray([]) else EmptyObject([]), n, style, ftoa, conv)
  {
    assert [OPEN_ARRAY] + ([] + [CLOSE_ARRAY]) == [OPEN_ARRAY, CLOSE_ARRAY];
    assert [OPEN_OBJECT] + ([] + [CLOSE_OBJECT]) == [OPEN_OBJECT, CLOSE_OBJECT];
  }

  lemma DropLast(x: Bytes, c: byte, rest: Bytes)
    requires rest != []
    ensures (x + [c] + rest)[..|x + [c] + rest| - 1] == x + ([c] + rest[..|rest| - 1])
  {}

  lemma {:induction false} ElementsSpelled(n: SNode, k: nat, style: Style, ftoa: Ftoa, conv: Conversion)
    returns (es: Elements)
    requires Clean(n, style, ftoa, conv) && n.SArray? && k < |n.children|
    ensures var items := Items(n, k, style, ftoa);
            ValidElements(es) && ElementsText(es) == items[..|items| - 1] + [CLOSE_ARRAY] &&
            ElementsMeaning(es, conv) == Some(ItemsOf(n, k))
    decreases n, |n.children| - k
  {
    hide Clean, Print, Text, Valid, Meaning, TreeOf;
    CleanChild(n, k, style, ftoa, conv);
    var v := Spelled(n.children[k], style, ftoa, conv);
    var t := Print(n.children[k], style, ftoa);
    if k + 1 == |n.children| {
      es := Elements([], v, [], NoElement);
      LastElement(n, k, v, style, ftoa);
      var x := TreeOf(n.children[k]);
      assert [x] + ItemsOf(n, k + 1) == [x];
    } else {
      var more := ElementsSpelled(n, k + 1, style, ftoa, conv);
      es := Elements([], v, [], Then(more));
      var items := Items(n, k + 1, style, ftoa);
      DropLast(t, COMMA, items);
      assert [] + (t + ([] + ([COMMA] + ElementsText(more)))) == t + ([COMMA] + (items[..|items| - 1] + [CLOSE_ARRAY]));
      Associate(t, [COMMA] + items[..|items| - 1], [CLOSE_ARRAY]);
      Associate([COMMA], items[..|items| - 1], [CLOSE_ARRAY]);
    }
  }

  lemma LastElement(n: SNode, k: nat, v: Value, style: Style, ftoa: Ftoa)
    requires n.SArray? && k + 1 == |n.children| && Text(v) == Print(n.children[k], style, ftoa)
    ensures var items := Items(n, k, style, ftoa);
            ElementsText(Elements([], v, [], NoElement)) == items[..|items| - 1] + [CLOSE_ARRAY]
  {
    hide Print, Text;
    var t := Print(n.children[k], style, ftoa);
    assert Items(n, k + 1, style, ftoa) == [];
    assert (t + [COMMA] + [])[..|t|] == t;
    assert [] + (t + ([] + [CLOSE_ARRAY])) == t + [CLOSE_ARRAY];
  }

  lemma {:induction false} PairsSpelled(n: SNode, k: nat, style: Style, ftoa: Ftoa, conv: Conversion)
    returns (ps: Pairs)
    requires Clean(n, style, ftoa, conv) && n.SObject? && k < |n.children| && (|n.children| - k) % 2 == 0
    ensures var items := Items(n, k, style, ftoa);
            ValidPairs(ps) && PairsText(ps) == items[..|items| - 1] + [CLOSE_OBJECT] &&
            PairsMeaning(ps, conv) == Some(MembersOf(n, k))
    decreases n, |n.children| - k
  {
    hide Clean, Print, Text, Valid, Meaning, TreeOf, Pieces, PiecesMeaning, PiecesText, ValidPieces, StringText, Items;
    CleanChild(n, k + 1, style, ftoa, conv);
    KeySpelled(n, k, style, ftoa, conv);
    var v := Spelled(n.children[k + 1], style, ftoa, conv);
    var key := Pieces(n.children[k].s, style);
    var rest := NoPair;
    if k + 2 < |n.children| {
      var more := PairsSpelled(n, k + 2, style, ftoa, conv);
      rest := ThenPair(more);
    }
    var m := Member(n.children[k].s, TreeOf(n.children[k + 1]));
    assert k + 2 == |n.children| ==> [m] + MembersOf(n, k + 2) == [m];
    ps := Pairs([], key, [], [], v, [], rest);
    PairJoin(n, k, v, rest, style, ftoa);
  }

  lemma KeySpelled(n: SNode, k: nat, style: Style, ftoa: Ftoa, conv: Conversion)
    requires Clean(n, style, ftoa, conv) && n.SObject? && k < |n.children| && (|n.children| - k) % 2 == 0
    ensures n.children[k].SString?
    ensures var key := Pieces(n.children[k].s, style);
            ValidPieces(key) && PiecesMeaning(key) == n.children[k].s &&
            StringText(key) == Print(n.children[k], style, ftoa)
  {
    hide Pieces, PiecesMeaning, ValidPieces, ValidUtf8, StringText;
    assert AtKey(n.children, k, true);
    assert Printable(n.children[k], style, ftoa, conv);
    StringSpelled(n.children[k].s, style);
  }

  /** One member's text: key, colon, value, then the comma or the closing bracket. */
  lemma PairJoin(n: SNode, k: nat, v: Value, rest: MorePairs, style: Style, ftoa: Ftoa)
    requires n.SObject? && k + 1 < |n.children| && (|n.children| - k) % 2 == 0 && n.children[k].SString?
    requires Text(v) == Print(n.children[k + 1], style, ftoa)
    requires StringText(Pieces(n.children[k].s, style)) == Print(n.children[k], style, ftoa)
    requires if k + 2 == |n.children| then rest == NoPair
             else rest.ThenPair? && var items := Items(n, k + 2, style, ftoa);
                  PairsText(rest.more) == items[..|items| - 1] + [CLOSE_OBJECT]
    ensures var items := Items(n, k, style, ftoa);
            PairsText(Pairs([], Pieces(n.children[k].s, style), [], [], v, [], rest)) ==
            items[..|items| - 1] + [CLOSE_OBJECT]
  {
    hide Print, Text, Pieces, StringText;
    var a, b := Print(n.children[k], style, ftoa), Print(n.children[k + 1], style, ftoa);
    TwoItems(n, k, style, ftoa);
    var tail := Items(n, k + 2, style, ftoa);
    hide Items;
    var head := a + [COLON] + b;
    assert Items(n, k, style, ftoa) == head + [COMMA] + tail;
    assert [] + (a + ([] + ([COLON] + ([] + (b + ([] + MorePairsText(rest))))))) == head + MorePairsText(rest);
    if k + 2 == |n.children| {
      assert (head + [COMMA] + [])[..|head|] == head;
    } else {
      DropLast(head, COMMA, tail);
      Associate(head, [COMMA] + tail[..|tail| - 1], [CLOSE_OBJECT]);
      Associate([COMMA], tail[..|tail| - 1], [CLOSE_OBJECT]);
    }
  }

  lemma TwoItems(n: SNode, k: nat, style: Style, ftoa: Ftoa)
    requires n.SObject? && k + 1 < |n.children| && (|n.children| - k) % 2 == 0
    ensures Items(n, k, style, ftoa) ==
            Print(n.children[k], style, ftoa) + [COLON] + Print(n.children[k + 1], style, ftoa) + [COMMA] +
            Items(n, k + 2, style, ftoa)
    ensures k + 2 == |n.children| <==> Items(n, k + 2, style, ftoa) == []
  {
    hide Print;
    assert Items(n, k + 1, style, ftoa) ==
           Print(n.children[k + 1], style, ftoa) + [COMMA] + Items(n, k + 2, style, ftoa);
  }

  /** Printing a node and parsing the text, behind whatever padding, gives back its document. */
  lemma PrintThenParse(n: SNode, style: Style, ftoa: Ftoa, conv: Conversion, s: Bytes)
    requires Clean(n, style, ftoa, conv)
    requires var t := Print(n, style, ftoa); Padded(s, |t|) && s[..|t|] == t
    ensures ParseDocument(s, |Print(n, style, ftoa)|, conv) == Some(TreeOf(n))
  {
    hide Clean, Print, Text, Valid, Meaning, TreeOf, ParseDocument;
    var t := Print(n, style, ftoa);
    var v := Spelled(n, style, ftoa, conv);
    assert t == [] + (Text(v) + []);
    DocumentComplete(s, |t|, conv, [], v, []);
  }

  lemma CleanIsFinite(n: SNode, style: Style, ftoa: Ftoa, conv: Conversion)
    requires Clean(n, style, ftoa, conv)
    ensures Shaped(n) && KeysOk(n) && Finite(n, ftoa)
  {
    if IsContainer(n) {
      forall k | 0 <= k < |n.children|
        ensures Finite(n.children[k], ftoa)
      {
        CleanChild(n, k, style, ftoa, conv);
        CleanIsFinite(n.children[k], style, ftoa, conv);
      }
    }
  }

  lemma PrintedText(n: SNode, style: Style, ftoa: Ftoa, conv: Conversion)
    requires Clean(n, style, ftoa, conv)
    ensures IsTextOf(Print(n, style, ftoa), TreeOf(n), conv)
  {
    hide Clean, Print, Text, Valid, Meaning, TreeOf;
    var v := Spelled(n, style, ftoa, conv);
    var none: Bytes := [];
    assert IsBlank(none);
    assert Print(n, style, ftoa) == none + (Text(v) + none);
  }
}
