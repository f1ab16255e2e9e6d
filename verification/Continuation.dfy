/** What is left to read when some containers are still open: the recursive reading cut open at any
    point.  The parser's state always means the same document. */
module Continuation {
  import opened Options
  import opened Json
  import opened Lexer
  import opened Reference
  import opened Handler

  /** A value is due at i inside the containers fs. */
  function Due(s: Bytes, i: nat, fs: seq<Frame>, conv: Conversion): Option<Parsed>
    requires fs == [] || !Top(fs).InObject?
    requires Nested(fs)
    decreases |s| - i, 2
  {
    match ParseValue(s, i, conv)
    case None => None
    case Some(x) => Finished(s, x.tree, x.end, fs, conv)
  }

  /** The containers around an open one wait for its value. */
  predicate Nested(fs: seq<Frame>) { forall k :: 0 <= k < |fs| - 1 ==> !fs[k].InObject? }

  /** A value has ended at e inside the containers fs. */
  function Finished(s: Bytes, t: Tree, e: nat, fs: seq<Frame>, conv: Conversion): Option<Parsed>
    requires fs == [] || !Top(fs).InObject?
    requires Nested(fs)
    decreases |s| - e, 1
  {
    if fs == [] then Some(Parsed(t, e)) else Punctuated(s, Skip(s, e), Push(fs, t), conv)
  }

  /** Behind a value, at the punctuation at j. */
  function Punctuated(s: Bytes, j: nat, fs: seq<Frame>, conv: Conversion): Option<Parsed>
    requires fs != [] && !Top(fs).AtValue? && Nested(fs)
    decreases |s| - j, 0
  {
    var c := Peek(s, j);
    if c == COMMA then
      if Top(fs).InArray? then Due(s, Skip(s, j + 1), fs, conv) else KeyDue(s, Skip(s, j + 1), fs, conv)
    else if c == CLOSE_ARRAY && Top(fs).InArray? then Finished(s, Array(Top(fs).items), j + 1, Below(fs), conv)
    else if c == CLOSE_OBJECT && Top(fs).InObject? then Finished(s, Object(Top(fs).members), j + 1, Below(fs), conv)
    else None
  }

  /** A key is due at i. */
  function KeyDue(s: Bytes, i: nat, fs: seq<Frame>, conv: Conversion): Option<Parsed>
    requires fs != [] && Top(fs).InObject? && Nested(fs)
    decreases |s| - i, 1
  {
    match ParseKey(s, i)
    case None => None
    case Some(k) => Due(s, k.value, PushKey(fs, k.key), conv)
  }

  // One step of each definition.

  lemma DueIs(s: Bytes, i: nat, fs: seq<Frame>, conv: Conversion)
    requires Nested(fs) && (fs == [] || !Top(fs).InObject?)
    ensures Due(s, i, fs, conv) ==
            match ParseValue(s, i, conv) case None => None case Some(x) => Finished(s, x.tree, x.end, fs, conv)
  {}

  lemma KeyDueIs(s: Bytes, i: nat, fs: seq<Frame>, conv: Conversion)
    requires fs != [] && Top(fs).InObject? && Nested(fs)
    ensures Nested(fs) ==> forall k :: Nested(PushKey(fs, k))
    ensures KeyDue(s, i, fs, conv) ==
            match ParseKey(s, i) case None => None case Some(k) => Due(s, k.value, PushKey(fs, k.key), conv)
  {}

  lemma FinishedIs(s: Bytes, t: Tree, e: nat, fs: seq<Frame>, conv: Conversion)
    requires fs != [] && !Top(fs).InObject? && Nested(fs)
    ensures Nested(Push(fs, t)) && !Top(Push(fs, t)).AtValue?
    ensures Finished(s, t, e, fs, conv) == Punctuated(s, Skip(s, e), Push(fs, t), conv)
  {}

  lemma NestedOpen(fs: seq<Frame>, f: Frame)
    requires Nested(fs) && (fs == [] || !Top(fs).InObject?)
    ensures Nested(fs + [f]) && Top(fs + [f]) == f && Below(fs + [f]) == fs
  {}

  lemma PushOpen(fs: seq<Frame>, f: Frame, t: Tree)
    requires !f.InObject?
    ensures Push(fs + [f], t) ==
            fs + [match f case InArray(items) => InArray(items + [t])
                  case AtValue(ms, key) => InObject(ms + [Member(key, t)])]
  {}

  lemma ArrayPunctuated(s: Bytes, j: nat, items: seq<Tree>, fs: seq<Frame>, conv: Conversion)
    requires Nested(fs) && (fs == [] || !Top(fs).InObject?) && Nested(fs + [InArray(items)])
    ensures Punctuated(s, j, fs + [InArray(items)], conv) ==
            if Peek(s, j) == COMMA then Due(s, Skip(s, j + 1), fs + [InArray(items)], conv)
            else if Peek(s, j) == CLOSE_ARRAY then Finished(s, Array(items), j + 1, fs, conv)
            else None
  {
    NestedOpen(fs, InArray(items));
  }

  lemma ObjectPunctuated(s: Bytes, j: nat, ms: seq<Member>, fs: seq<Frame>, conv: Conversion)
    requires Nested(fs) && (fs == [] || !Top(fs).InObject?) && Nested(fs + [InObject(ms)])
    ensures Punctuated(s, j, fs + [InObject(ms)], conv) ==
            if Peek(s, j) == COMMA then KeyDue(s, Skip(s, j + 1), fs + [InObject(ms)], conv)
            else if Peek(s, j) == CLOSE_OBJECT then Finished(s, Object(ms), j + 1, fs, conv)
            else None
  {
    NestedOpen(fs, InObject(ms));
  }

  // ---- opening a container ----

  /** Reading elements one by one is reading them all. */
  lemma {:induction false} ElementsDue(s: Bytes, i: nat, items: seq<Tree>, fs: seq<Frame>, conv: Conversion)
    requires Nested(fs) && (fs == [] || !Top(fs).InObject?)
    ensures Nested(fs + [InArray(items)])
    ensures Due(s, i, fs + [InArray(items)], conv) ==
            match ParseElements(s, i, conv)
            case None => None
            case Some(x) => Finished(s, Array(items + x.items), x.end, fs, conv)
    decreases |s| - i
  {
    hide ParseValue, Skip, Nested, Due, Finished, Punctuated, Push, Top;
    NestedOpen(fs, InArray(items));
    DueIs(s, i, fs + [InArray(items)], conv);
    var v := ParseValue(s, i, conv);
    if v.Some? {
      var t, e := v.value.tree, v.value.end;
      FinishedIs(s, t, e, fs + [InArray(items)], conv);
      PushOpen(fs, InArray(items), t);
      var j := Skip(s, e);
      ArrayPunctuated(s, j, items + [t], fs, conv);
      if Peek(s, j) == COMMA {
        ElementsDue(s, Skip(s, j + 1), items + [t], fs, conv);
        var r := ParseElements(s, Skip(s, j + 1), conv);
        assert r.Some? ==> items + [t] + r.value.items == items + ([t] + r.value.items);
      }
    }
  }

  lemma {:induction false} PairsDue(s: Bytes, i: nat, ms: seq<Member>, fs: seq<Frame>, conv: Conversion)
    requires Nested(fs) && (fs == [] || !Top(fs).InObject?)
    ensures Nested(fs + [InObject(ms)]) && Top(fs + [InObject(ms)]).InObject?
    ensures KeyDue(s, i, fs + [InObject(ms)], conv) ==
            match ParsePairs(s, i, conv)
            case None => None
            case Some(x) => Finished(s, Object(ms + x.members), x.end, fs, conv)
    decreases |s| - i
  {
    hide ParseValue, ParseKey, Skip, Nested, Due, KeyDue, Finished, Punctuated, Push, PushKey, Top;
    NestedOpen(fs, InObject(ms));
    KeyDueIs(s, i, fs + [InObject(ms)], conv);
    var key := ParseKey(s, i);
    if key.Some? {
      var k := key.value.key;
      PushKeyOpen(fs, ms, k);
      NestedOpen(fs, AtValue(ms, k));
      DueIs(s, key.value.value, fs + [AtValue(ms, k)], conv);
      var v := ParseValue(s, key.value.value, conv);
      if v.Some? {
        var t, e := v.value.tree, v.value.end;
        var m := Member(k, t);
        FinishedIs(s, t, e, fs + [AtValue(ms, k)], conv);
        PushOpen(fs, AtValue(ms, k), t);
        var j := Skip(s, e);
        ObjectPunctuated(s, j, ms + [m], fs, conv);
        if Peek(s, j) == COMMA {
          PairsDue(s, Skip(s, j + 1), ms + [m], fs, conv);
          var r := ParsePairs(s, Skip(s, j + 1), conv);
          assert r.Some? ==> ms + [m] + r.value.members == ms + ([m] + r.value.members);
        }
      }
    }
  }

  lemma PushKeyOpen(fs: seq<Frame>, ms: seq<Member>, k: Bytes)
    ensures PushKey(fs + [InObject(ms)], k) == fs + [AtValue(ms, k)]
  {}

  /** The bracket at i opens an array: either it is empty or its first element is due. */
  lemma ArrayOpens(s: Bytes, i: nat, fs: seq<Frame>, conv: Conversion)
    requires Nested(fs) && (fs == [] || !Top(fs).InObject?) && Peek(s, i) == OPEN_ARRAY
    ensures Nested(fs + [InArray([])])
    ensures var j := Skip(s, i + 1);
            Due(s, i, fs, conv) ==
            if Peek(s, j) == CLOSE_ARRAY then Finished(s, Array([]), j + 1, fs, conv)
            else Due(s, j, fs + [InArray([])], conv)
  {
    hide Skip, Nested, Finished, ParseElements;
    var j := Skip(s, i + 1);
    ElementsDue(s, j, [], fs, conv);
    var r := ParseElements(s, j, conv);
    assert r.Some? ==> [] + r.value.items == r.value.items;
    hide Due;
    DueIs(s, i, fs, conv);
  }

  lemma ObjectOpens(s: Bytes, i: nat, fs: seq<Frame>, conv: Conversion)
    requires Nested(fs) && (fs == [] || !Top(fs).InObject?) && Peek(s, i) == OPEN_OBJECT
    ensures Nested(fs + [InObject([])])
    ensures var j := Skip(s, i + 1);
            Due(s, i, fs, conv) ==
            if Peek(s, j) == CLOSE_OBJECT then Finished(s, Object([]), j + 1, fs, conv)
            else KeyDue(s, j, fs + [InObject([])], conv)
  {
    hide Skip, Nested, Finished, ParsePairs, KeyDue;
    var j := Skip(s, i + 1);
    PairsDue(s, j, [], fs, conv);
    var r := ParsePairs(s, j, conv);
    assert r.Some? ==> [] + r.value.members == r.value.members;
    hide Due;
    DueIs(s, i, fs, conv);
  }
}
