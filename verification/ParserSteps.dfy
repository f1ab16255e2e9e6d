/** The parser's states as pure predicates, and how each token leads from one to the next.  `r` is what the
    whole text means; no step changes it. */
module ParserSteps {
  import opened Options
  import opened Json
  import opened Lexer
  import opened Reference
  import opened Handler
  import opened Continuation

  const ARR_MASK := 0x8000_0000

  function Count(f: Frame): nat {
    match f
    case InArray(items) => |items|
    case InObject(ms) => |ms|
    case AtValue(ms, _) => |ms|
  }

  /** An entry of the depth vector: the count, with the top bit set for an array. */
  function Entry(f: Frame): nat { (if f.InArray? then ARR_MASK else 0) + Count(f) }

  predicate Counted(depth: seq<nat>, fs: seq<Frame>) {
    |depth| == |fs| && forall k :: 0 <= k < |fs| ==> depth[k] == Entry(fs[k])
  }

  /** Every child has taken two bytes of the text: counts stay below half of it. */
  predicate Small(fs: seq<Frame>, p: int) {
    forall k :: 0 <= k < |fs| ==> 2 * Count(fs[k]) + (if k == |fs| - 1 then 1 else 2) <= p
  }

  predicate Smaller(fs: seq<Frame>, p: int) { forall k :: 0 <= k < |fs| ==> 2 * Count(fs[k]) + 2 <= p }

  predicate Waiting(fs: seq<Frame>) { Nested(fs) && (fs == [] || !Top(fs).InObject?) }

  /** A value is due at i inside fs. */
  ghost predicate ValueDue(s: Bytes, r: Option<Parsed>, i: nat, depth: seq<nat>, fs: seq<Frame>, conv: Conversion) {
    Waiting(fs) && r == Due(s, i, fs, conv) && Counted(depth, fs) && Small(fs, i + 1)
  }

  /** A key is due at i inside the innermost object of fs. */
  ghost predicate KeyIsDue(s: Bytes, r: Option<Parsed>, i: nat, depth: seq<nat>, fs: seq<Frame>, conv: Conversion) {
    fs != [] && Top(fs).InObject? && Nested(fs) && r == KeyDue(s, i, fs, conv) && Counted(depth, fs) && Small(fs, i + 1)
  }

  /** The value t has been read inside fs but not counted yet; the next token is at j. */
  ghost predicate Behind(s: Bytes, r: Option<Parsed>, j: nat, depth: seq<nat>, fs: seq<Frame>, t: Tree,
      conv: Conversion)
  {
    fs != [] && Waiting(fs) && Nested(Push(fs, t)) && !Top(Push(fs, t)).AtValue? &&
    r == Punctuated(s, j, Push(fs, t), conv) && Counted(depth, fs) && Small(fs, j)
  }

  /** The container t inside fs has been closed before e; its own entry is still on the vector. */
  ghost predicate Closed(s: Bytes, r: Option<Parsed>, e: nat, depth: seq<nat>, fs: seq<Frame>, t: Tree,
      conv: Conversion)
  {
    Waiting(fs) && r == Finished(s, t, e, fs, conv) && |depth| == |fs| + 1 && Counted(depth[..|fs|], fs) &&
    Smaller(fs, e)
  }

  function Empty(c: byte): Frame { if c == OPEN_ARRAY then InArray([]) else InObject([]) }

  /** The tree of a finished container. */
  function Whole(f: Frame): Tree
    requires !f.AtValue?
  {
    if f.InArray? then Array(f.items) else Object(f.members)
  }

  function CloseOf(f: Frame): byte { if f.InArray? then CLOSE_ARRAY else CLOSE_OBJECT }

  lemma CountOpen(depth: seq<nat>, fs: seq<Frame>, c: byte, p: nat)
    requires Counted(depth, fs) && Small(fs, p)
    ensures var d := depth + [Entry(Empty(c))];
            Counted(d, fs + [Empty(c)]) && d[..|fs|] == depth && |d| == |fs| + 1
    ensures forall q :: q > p ==> Small(fs + [Empty(c)], q) && Smaller(fs, q)
  {}

  /** The bracket c at i opens a container. */
  lemma OpenStep(s: Bytes, r: Option<Parsed>, i: nat, c: byte, depth: seq<nat>, fs: seq<Frame>, conv: Conversion)
    requires ValueDue(s, r, i, depth, fs, conv) && Peek(s, i) == c && (c == OPEN_ARRAY || c == OPEN_OBJECT)
    ensures var f, j, d := Empty(c), Skip(s, i + 1), depth + [Entry(Empty(c))];
            && Top(fs + [f]) == f && Below(fs + [f]) == fs
            && if Peek(s, j) == CloseOf(f) then Closed(s, r, j + 1, d, fs, Whole(f), conv)
               else if c == OPEN_ARRAY then ValueDue(s, r, j, d, fs + [f], conv)
               else KeyIsDue(s, r, j, d, fs + [f], conv)
  {
    hide Skip, Due, KeyDue, Finished, Nested, Counted, Small, Smaller, Top, Below;
    WaitingIs(fs);
    NestedOpen(fs, Empty(c));
    CountOpen(depth, fs, c, i + 1);
    WaitingIs(fs + [Empty(c)]);
    if c == OPEN_ARRAY {
      ArrayOpens(s, i, fs, conv);
    } else {
      ObjectOpens(s, i, fs, conv);
    }
  }

  lemma WaitingIs(fs: seq<Frame>)
    ensures Waiting(fs) <==> Nested(fs) && (fs == [] || !Top(fs).InObject?)
  {}

  lemma SmallSkip(fs: seq<Frame>, p: int)
    requires Small(fs, p)
    ensures forall q :: q >= p ==> Small(fs, q)
  {}

  /** Nothing goes on after a value that a point follows. */
  lemma DoomedStep(s: Bytes, r: Option<Parsed>, i: nat, j: nat, depth: seq<nat>, fs: seq<Frame>, t: Tree,
      conv: Conversion)
    requires ValueDue(s, r, i, depth, fs, conv) && fs != [] && r == None && i < j && Peek(s, j) == DOT
    ensures Behind(s, r, j, depth, fs, t, conv)
  {
    hide Due, ParseValue;
  }

  /** A scalar at i. */
  lemma ScalarStep(s: Bytes, r: Option<Parsed>, i: nat, c: byte, depth: seq<nat>, fs: seq<Frame>, conv: Conversion)
    requires ValueDue(s, r, i, depth, fs, conv) && Peek(s, i) == c && c != OPEN_ARRAY && c != OPEN_OBJECT
    ensures match ParsePrimitive(s, i, conv)
            case None => r == None
            case Some(x) =>
              if fs == [] then r == Some(x) else Behind(s, r, Skip(s, x.end), depth, fs, x.tree, conv)
  {
    hide Skip, Due, Finished, Punctuated, Nested, Counted, Small, Top, ParsePrimitive;
    WaitingIs(fs);
    DueIs(s, i, fs, conv);
    ScalarIs(s, i, conv);
    var v := ParsePrimitive(s, i, conv);
    if v.Some? {
      if fs == [] {
        FinishedAlone(s, v.value.tree, v.value.end, fs, conv);
      } else {
        FinishedIs(s, v.value.tree, v.value.end, fs, conv);
        SmallSkip(fs, i + 1);
      }
    }
  }

  lemma ScalarIs(s: Bytes, i: nat, conv: Conversion)
    requires Peek(s, i) != OPEN_ARRAY && Peek(s, i) != OPEN_OBJECT
    ensures ParseValue(s, i, conv) == ParsePrimitive(s, i, conv)
  {
    hide ParsePrimitive;
  }

  lemma FinishedAlone(s: Bytes, t: Tree, e: nat, fs: seq<Frame>, conv: Conversion)
    requires fs == [] && Nested(fs)
    ensures Finished(s, t, e, fs, conv) == Some(Parsed(t, e))
  {}

  /** A key and its colon. */
  lemma KeyStep(s: Bytes, r: Option<Parsed>, i: nat, depth: seq<nat>, fs: seq<Frame>, conv: Conversion)
    requires KeyIsDue(s, r, i, depth, fs, conv)
    ensures match ParseKey(s, i)
            case None => r == None
            case Some(k) => ValueDue(s, r, k.value, depth, PushKey(fs, k.key), conv)
  {
    hide ParseKey, Due, KeyDue;
    KeyDueIs(s, i, fs, conv);
    var k := ParseKey(s, i);
    if k.Some? {
      KeyCounts(depth, fs, k.value.key, i + 1);
    }
  }

  lemma KeyCounts(depth: seq<nat>, fs: seq<Frame>, key: Bytes, p: nat)
    requires fs != [] && Top(fs).InObject? && Counted(depth, fs) && Small(fs, p)
    ensures Counted(depth, PushKey(fs, key)) && forall q :: q >= p ==> Small(PushKey(fs, key), q)
  {}

  /** depth.back()++ */
  function Bumped(depth: seq<nat>): seq<nat>
    requires depth != []
  {
    depth[|depth| - 1 := depth[|depth| - 1] + 1]
  }

  lemma PushCounts(depth: seq<nat>, fs: seq<Frame>, t: Tree, p: nat)
    requires fs != [] && !Top(fs).InObject? && Counted(depth, fs) && Small(fs, p)
    ensures depth != [] && Counted(Bumped(depth), Push(fs, t)) && forall q :: q > p + 1 ==> Small(Push(fs, t), q)
    ensures Smaller(Below(fs), p + 1)
  {}

  /** The punctuation c at j, behind a value. */
  lemma PunctuationStep(s: Bytes, r: Option<Parsed>, j: nat, c: byte, depth: seq<nat>, fs: seq<Frame>, t: Tree,
      conv: Conversion)
    requires Behind(s, r, j, depth, fs, t, conv) && Peek(s, j) == c
    ensures depth != []
    ensures var gs, d := Push(fs, t), Bumped(depth);
            && Counted(d, gs) && !Top(gs).AtValue? && (Top(gs).InArray? <==> Top(fs).InArray?)
            && if c == COMMA then
                 if Top(gs).InArray? then ValueDue(s, r, Skip(s, j + 1), d, gs, conv)
                 else KeyIsDue(s, r, Skip(s, j + 1), d, gs, conv)
               else if c == CloseOf(Top(gs)) then Closed(s, r, j + 1, d, Below(gs), Whole(Top(gs)), conv)
               else r == None
  {
    hide Skip, Due, KeyDue, Finished, Punctuated, Counted, Small, Smaller;
    var gs := Push(fs, t);
    PushCounts(depth, fs, t, j);
    PunctuatedIs(s, j, gs, conv);
    if c == CloseOf(Top(gs)) {
      CountedBelow(Bumped(depth), gs);
    }
  }

  lemma PunctuatedIs(s: Bytes, j: nat, fs: seq<Frame>, conv: Conversion)
    requires fs != [] && !Top(fs).AtValue? && Nested(fs)
    ensures Waiting(Below(fs))
    ensures Punctuated(s, j, fs, conv) ==
            if Peek(s, j) == COMMA then
              if Top(fs).InArray? then Due(s, Skip(s, j + 1), fs, conv) else KeyDue(s, Skip(s, j + 1), fs, conv)
            else if Peek(s, j) == CloseOf(Top(fs)) then Finished(s, Whole(Top(fs)), j + 1, Below(fs), conv)
            else None
  {}

  lemma CountedBelow(depth: seq<nat>, fs: seq<Frame>)
    requires Counted(depth, fs) && fs != []
    ensures Counted(depth[..|fs| - 1], Below(fs))
  {}

  /** depth.pop_back(), and the token behind the closed container. */
  lemma ScopeStep(s: Bytes, r: Option<Parsed>, e: nat, depth: seq<nat>, fs: seq<Frame>, t: Tree, conv: Conversion)
    requires Closed(s, r, e, depth, fs, t, conv)
    ensures if fs == [] then |depth| == 1 && r == Some(Parsed(t, e))
            else |depth| > 1 && Behind(s, r, Skip(s, e), depth[..|depth| - 1], fs, t, conv)
  {
    hide Skip, Finished, Punctuated, Counted;
    if fs == [] {
      FinishedAlone(s, t, e, fs, conv);
    } else {
      FinishedIs(s, t, e, fs, conv);
    }
  }

  /** The top bit of an entry tells arrays from objects as long as the counts are small. */
  lemma EntryKind(depth: seq<nat>, fs: seq<Frame>, p: nat)
    requires fs != [] && Counted(depth, fs) && Small(fs, p) && p < 2 * ARR_MASK
    ensures var d := depth[|depth| - 1];
            (d >= ARR_MASK <==> Top(fs).InArray?) && d % ARR_MASK == Count(Top(fs)) < ARR_MASK
  {}
}
