/** The end mark x"x that stands after the text instead of length checks: no reading of a padded
    buffer gets past it, and only a string literal can reach it. */
module Sentinel {
  import opened Options
  import opened Json
  import opened Lexer
  import opened Reference

  const PADDING := 64

  /** The first n bytes are the text; then the end mark and bytes of any value. */
  predicate Padded(s: Bytes, n: nat) {
    |s| == n + PADDING && s[n] == 0x78 && s[n + 1] == QUOTE && s[n + 2] == 0x78
  }

  lemma {:induction false} SkipInside(s: Bytes, n: nat, i: nat)
    requires Padded(s, n) && (i <= n || i == n + 2)
    ensures if i <= n then Skip(s, i) <= n else Skip(s, i) == i
    decreases n + 2 - i
  {
    if i < n && IsSpace(s[i]) {
      SkipInside(s, n, i + 1);
    }
  }

  lemma AtEach(s: Bytes, i: nat, x: Bytes)
    requires At(s, i, x)
    ensures forall k :: i <= k < i + |x| ==> s[k] == x[k - i]
  {}

  lemma WordInside(s: Bytes, n: nat, i: nat, word: Bytes)
    requires Padded(s, n) && i <= n && At(s, i, word) && 0x78 !in word
    ensures i + |word| <= n
  {
    AtEach(s, i, word);
  }

  lemma HexInside(s: Bytes, n: nat, i: nat)
    requires Padded(s, n) && i <= n && HexAt(s, i).Some?
    ensures i + 4 <= n
  {
    assert HexDigit(0x78) == None;
    AtEach(s, i, s[i..i + 4]);
  }

  lemma EscapeInside(s: Bytes, n: nat, i: nat)
    requires Padded(s, n) && i < n && ScanEscape(s, i).Some?
    ensures ScanEscape(s, i).value.end <= n
  {
    hide HexAt, At, Utf8;
    assert Unescape(0x78) == None;
    if s[i + 1] == 0x75 {
      HexInside(s, n, i + 2);
      if IsHigh(HexAt(s, i + 2).value) {
        WordInside(s, n, i + 6, [BACKSLASH, 0x75]);
        HexInside(s, n, i + 8);
      }
    }
  }

  lemma {:induction false} StringInside(s: Bytes, n: nat, i: nat)
    requires Padded(s, n) && i <= n && ScanString(s, i).Some?
    ensures ScanString(s, i).value.end <= n || ScanString(s, i).value.end == n + 2
    decreases n - i
  {
    hide ScanEscape;
    if i == n {
      assert ScanString(s, n + 1).value.end == n + 2;
    } else if s[i] == BACKSLASH {
      EscapeInside(s, n, i);
      StringInside(s, n, ScanEscape(s, i).value.end);
    } else if s[i] != QUOTE {
      StringInside(s, n, i + 1);
    }
  }

  lemma {:induction false} DigitsInside(s: Bytes, n: nat, i: nat)
    requires Padded(s, n) && i <= n
    ensures DigitRun(s, i) <= n
    decreases n - i
  {
    if i < n && IsDigit(s[i]) {
      DigitsInside(s, n, i + 1);
    }
  }

  lemma NumberInside(s: Bytes, n: nat, i: nat)
    requires Padded(s, n) && i <= n && ScanNumber(s, i).Some?
    ensures ScanNumber(s, i).value.end <= n
  {
    hide DigitsIn, DigitRun;
    var a := if Peek(s, i) == MINUS then i + 1 else i;
    DigitsInside(s, n, a);
    var w := ScanWhole(s, a).value;
    if Peek(s, w.end) == DOT {
      DigitsInside(s, n, w.end + 1);
    }
    var f := ScanFraction(s, w.end).value;
    if IsExpMark(Peek(s, f.end)) {
      DigitsInside(s, n, ScanSign(s, f.end + 1));
    }
  }

  lemma PrimitiveInside(s: Bytes, n: nat, i: nat, conv: Conversion)
    requires Padded(s, n) && i <= n && ParsePrimitive(s, i, conv).Some?
    ensures var e := ParsePrimitive(s, i, conv).value.end; i < n && (e <= n || (e == n + 2 && s[i] == QUOTE))
  {
    hide ScanNumber, ScanString, NumberMeaning;
    var c := Peek(s, i);
    if c == QUOTE {
      StringInside(s, n, i + 1);
    } else if IsDigit(c) || c == MINUS {
      NumberInside(s, n, i);
    } else if c == 0x6e {
      WordInside(s, n, i, NULL_WORD);
    } else if c == 0x74 {
      WordInside(s, n, i, TRUE_WORD);
    } else {
      WordInside(s, n, i, FALSE_WORD);
    }
  }

  lemma {:induction false} ValueInside(s: Bytes, n: nat, i: nat, conv: Conversion)
    requires Padded(s, n) && i <= n && ParseValue(s, i, conv).Some?
    ensures var e := ParseValue(s, i, conv).value.end; i < n && (e <= n || (e == n + 2 && s[i] == QUOTE))
    decreases n - i, 0
  {
    hide ParsePrimitive, ParseElements, ParsePairs, Skip;
    var c := Peek(s, i);
    if c == OPEN_ARRAY || c == OPEN_OBJECT {
      var j := Skip(s, i + 1);
      SkipInside(s, n, i + 1);
      if c == OPEN_ARRAY && Peek(s, j) != CLOSE_ARRAY {
        ElementsInside(s, n, j, conv);
      } else if c == OPEN_OBJECT && Peek(s, j) != CLOSE_OBJECT {
        PairsInside(s, n, j, conv);
      }
    } else {
      PrimitiveInside(s, n, i, conv);
    }
  }

  lemma {:induction false} ElementsInside(s: Bytes, n: nat, i: nat, conv: Conversion)
    requires Padded(s, n) && i <= n && ParseElements(s, i, conv).Some?
    ensures i < n && ParseElements(s, i, conv).value.end <= n
    decreases n - i, 1
  {
    hide ParseValue, Skip;
    ValueInside(s, n, i, conv);
    var e := ParseValue(s, i, conv).value.end;
    SkipInside(s, n, e);
    var j := Skip(s, e);
    if Peek(s, j) == COMMA {
      SkipInside(s, n, j + 1);
      ElementsInside(s, n, Skip(s, j + 1), conv);
    }
  }

  lemma KeyInside(s: Bytes, n: nat, i: nat)
    requires Padded(s, n) && i <= n && ParseKey(s, i).Some?
    ensures i < ParseKey(s, i).value.value <= n
  {
    hide ScanString, Skip;
    StringInside(s, n, i + 1);
    var e := ScanString(s, i + 1).value.end;
    SkipInside(s, n, e);
    SkipInside(s, n, Skip(s, e) + 1);
  }

  lemma {:induction false} PairsInside(s: Bytes, n: nat, i: nat, conv: Conversion)
    requires Padded(s, n) && i <= n && ParsePairs(s, i, conv).Some?
    ensures i < n && ParsePairs(s, i, conv).value.end <= n
    decreases n - i, 1
  {
    hide ParseValue, ParseKey, Skip;
    KeyInside(s, n, i);
    var k := ParseKey(s, i).value.value;
    ValueInside(s, n, k, conv);
    var e := ParseValue(s, k, conv).value.end;
    SkipInside(s, n, e);
    var j := Skip(s, e);
    if Peek(s, j) == COMMA {
      SkipInside(s, n, j + 1);
      PairsInside(s, n, Skip(s, j + 1), conv);
    }
  }

  // ---- whole texts ----

  /** One value with blanks around it, and nothing else before the end mark. */
  function ParseDocument(s: Bytes, n: nat, conv: Conversion): Option<Tree>
    requires Padded(s, n)
  {
    match ParseValue(s, Skip(s, 0), conv)
    case None => None
    case Some(x) => if x.end <= n && Skip(s, x.end) == n then Some(x.tree) else None
  }

  /** The text spells the tree (section 2 of RFC 8259). */
  ghost predicate IsTextOf(text: Bytes, t: Tree, conv: Conversion) {
    exists w: Bytes, v: Value, u: Bytes ::
      IsBlank(w) && Valid(v) && IsBlank(u) && text == w + (Text(v) + u) && Meaning(v, conv) == Some(t)
  }

  lemma {:induction false} BlankToEnd(s: Bytes, n: nat, i: nat)
    requires Padded(s, n) && i <= n
    ensures Skip(s, i) == n <==> IsBlank(s[i..n])
    decreases n - i
  {
    if i < n {
      BlankToEnd(s, n, i + 1);
      assert s[i..n] == [s[i]] + s[i + 1..n];
      assert s[i..n][1..] == s[i + 1..n];
    }
  }

  lemma DocumentSound(s: Bytes, n: nat, conv: Conversion)
    requires Padded(s, n) && ParseDocument(s, n, conv).Some?
    ensures IsTextOf(s[..n], ParseDocument(s, n, conv).value, conv)
  {
    hide ParseValue, Skip, IsBlank, Text, Meaning, Valid;
    var i := Skip(s, 0);
    SkipInside(s, n, 0);
    SkipSound(s, 0);
    var v := ValueSound(s, i, conv);
    var e := ParseValue(s, i, conv).value.end;
    BlankToEnd(s, n, e);
    SliceJoin(s, 0, i, n);
    SliceJoin(s, i, e, n);
    assert s[0..n] == s[..n] && s[0..i] == s[..i];
    assert s[..n] == s[0..i] + (Text(v) + s[e..n]);
  }

  lemma DocumentComplete(s: Bytes, n: nat, conv: Conversion, w: Bytes, v: Value, u: Bytes)
    requires Padded(s, n) && IsBlank(w) && Valid(v) && IsBlank(u) && s[..n] == w + (Text(v) + u)
    ensures ParseDocument(s, n, conv) == Meaning(v, conv)
  {
    hide ParseValue, Skip, Text, Meaning, Valid;
    assert At(s, 0, w + (Text(v) + u)) by { assert s[0..n] == s[..n]; }
    ValueStart(v);
    NotBlank(Text(v)[0]);
    StartOf(Text(v), u);
    SkipTo(s, 0, w, Text(v) + u);
    var i := |w|;
    AtConcat(s, i, Text(v), u);
    var e := i + |Text(v)|;
    assert e + |u| == n;
    assert Follows(Peek(s, e)) by {
      if u != [] {
        assert s[e] == s[e..n][0] == u[0];
      }
    }
    ValueComplete(s, i, v, conv);
    BlankToEnd(s, n, e);
  }

  /** The reading accepts exactly the JSON texts whose numbers are in range. */
  lemma DocumentExact(s: Bytes, n: nat, conv: Conversion, t: Tree)
    requires Padded(s, n)
    ensures ParseDocument(s, n, conv) == Some(t) <==> IsTextOf(s[..n], t, conv)
  {
    hide ParseDocument, IsBlank, Text, Meaning, Valid;
    if ParseDocument(s, n, conv) == Some(t) {
      DocumentSound(s, n, conv);
    }
    if IsTextOf(s[..n], t, conv) {
      var w: Bytes, v: Value, u: Bytes :|
        IsBlank(w) && Valid(v) && IsBlank(u) && s[..n] == w + (Text(v) + u) && Meaning(v, conv) == Some(t);
      DocumentComplete(s, n, conv, w, v, u);
    }
  }
}
