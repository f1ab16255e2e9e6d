/** The serializer: a goto machine with an explicit stack that prints separators eagerly, takes the last one
    back, and finds bad keys by counting. */
module Serializer {
  import opened Json
  import opened Memory
  import opened Quote
  import opened QuoteWriter
  import opened Itoa
  import opened Unescape
  import opened WriteBuffer
  import opened Printer
  import opened CutObjects

  datatype SerError = SerNone | InvalidObjKey | SerInfinity

  const NUMBER_SIZE := 33

  ghost predicate ShortNumbers(ftoa: Ftoa) { forall bits: nat :: ftoa(bits).Some? ==> 0 < |ftoa(bits).value| <= 32 }

  /** A stack entry: remaining values and kind in one word, shifted in 32 bits, and where the container
      stands. */
  datatype ParentCtx = ParentCtx(len: nat, ptr: Ctx)

  /** What the interrupted container is for the text. */
  ghost function Printed(f: Ctx): Ctx { Ctx(Cut(f.parent), f.at) }

  ghost predicate Entry(e: ParentCtx) {
    var f := e.ptr;
    && ValidCtx(f) && ValidCtx(Printed(f)) && !AtKey(f.parent.children, f.at, f.parent.SObject?)
    && BadBefore(Cut(f.parent), f.at) == 0 && ShapedChildren(f.parent) && f.at < EndSeen(f.parent, f.at + 1)
    && e.len == 2 * (EndSeen(f.parent, f.at + 1) - f.at) + if f.parent.SObject? then 1 else 0
  }

  predicate ShapedChildren(c: SNode) {
    IsContainer(c) && |c.children| < (if c.SObject? then 2 * MAX_SIZE else MAX_SIZE) &&
    forall k :: 0 <= k < |c.children| ==> Shaped(c.children[k])
  }

  ghost predicate Entries(stk: seq<ParentCtx>) { forall i :: 0 <= i < |stk| ==> Entry(stk[i]) }

  ghost function Frames(stk: seq<ParentCtx>): (fs: seq<Ctx>)
    ensures |fs| == |stk|
  {
    seq(|stk|, i requires 0 <= i < |stk| => Printed(stk[i].ptr))
  }

  lemma FramesValid(stk: seq<ParentCtx>)
    requires Entries(stk)
    ensures ValidStack(Frames(stk))
  {
    hide AtKey, BadBefore, ShapedChildren;
  }

  lemma FramesPush(stk: seq<ParentCtx>, e: ParentCtx)
    ensures Frames(stk + [e]) == Frames(stk) + [Printed(e.ptr)]
    ensures Entries(stk) && Entry(e) ==> Entries(stk + [e])
  {
    hide Entry;
  }

  lemma FramesPop(stk: seq<ParentCtx>)
    requires stk != []
    ensures Frames(stk[..|stk| - 1]) == Frames(stk)[..|stk| - 1]
    ensures Frames(stk)[|stk| - 1] == Printed(stk[|stk| - 1].ptr)
    ensures Entries(stk) ==> Entries(stk[..|stk| - 1]) && Entry(stk[|stk| - 1])
  {
    hide Entry;
  }

  /** The machine's counters fit the container c and the child k it stands at. */
  ghost predicate Counting(c: SNode, k: nat, valCnt: nat, memberCnt: nat, isObj: bool) {
    ShapedChildren(c) && k <= |c.children| && k <= |Cut(c).children| && IsContainer(Cut(c)) &&
    valCnt == EndSeen(c, k) - k && isObj == c.SObject? &&
    (isObj ==> memberCnt == valCnt / 2 + BadBefore(Cut(c), k))
  }

  /** What the machine still has to do decides about the keys and numbers of the root, and, as long as no bad
      key has been met, completes the output. */
  ghost predicate Serializing(root: SNode, total: Bytes, w: Bytes, c: SNode, k: nat, fs: seq<Ctx>, style: Style,
      ftoa: Ftoa)
  {
    && IsContainer(c) && k <= |c.children| && ValidStack(fs) && (w != [] || k < |c.children|)
    && (KeysOk(root) <==> BadBefore(c, k) == 0 && RestOk(c, k) && StackOk(fs))
    && (Finite(root, ftoa) <==> RestFinite(c, k, ftoa) && StackFinite(fs, ftoa))
    && (BadBefore(c, k) == 0 ==> Output(w, c, k, fs, style, ftoa) == total)
  }

  lemma SerializingStart(root: SNode, style: Style, ftoa: Ftoa)
    requires IsContainer(root) && root.children != []
    ensures Serializing(root, Print(root, style, ftoa) + [COMMA], [OpenOf(root.SObject?)], root, 0, [], style, ftoa)
  {
    OutputRoot(root, style, ftoa);
    KeysOkIs(root);
    FiniteIs(root, ftoa);
    hide KeysOk, Finite, Output, Print;
  }

  lemma SerializingSingle(root: SNode, style: Style, ftoa: Ftoa)
    requires !IsContainer(root) || root.children == []
    ensures Serializing(root, Print(root, style, ftoa) + [CloseOf(root.SObject?), COMMA], [], Wrapper(root), 0, [],
              style, ftoa)
  {
    OutputSingle(root, style, ftoa);
    KeysOkIs(Wrapper(root));
    FiniteIs(Wrapper(root), ftoa);
    hide KeysOk, Finite, Output, Print;
  }

  /** A child that is not descended into. */
  lemma SerializingStep(root: SNode, total: Bytes, w: Bytes, c: SNode, k: nat, fs: seq<Ctx>, style: Style, ftoa: Ftoa,
      text: Bytes, sep: byte)
    requires Serializing(root, total, w, c, k, fs, style, ftoa) && k < |c.children|
    requires var n := c.children[k];
             KeysOk(n) && Finite(n, ftoa) && text == Print(n, style, ftoa)
    requires sep == if c.children[k].SString? && AtKey(c.children, k, c.SObject?) then COLON else COMMA
    ensures Serializing(root, total, w + text + [sep], c, k + 1, fs, style, ftoa)
  {
    hide KeysOk, Finite, Output, Print, RestOk, RestFinite, StackOk, StackFinite;
    RestOkStep(c, k);
    RestFiniteStep(c, k, ftoa);
    OutputStep(w, c, k, fs, style, ftoa);
  }

  /** A container with children, in a place where keys are in order so far. */
  lemma SerializingDescend(root: SNode, total: Bytes, w: Bytes, c: SNode, k: nat, fs: seq<Ctx>, style: Style,
      ftoa: Ftoa)
    requires Serializing(root, total, w, c, k, fs, style, ftoa) && k < |c.children|
    requires BadBefore(c, k) == 0 && !AtKey(c.children, k, c.SObject?)
    requires IsContainer(c.children[k]) && c.children[k].children != []
    ensures var n := c.children[k];
            Serializing(root, total, w + [OpenOf(n.SObject?)], n, 0, fs + [Ctx(c, k)], style, ftoa)
  {
    hide KeysOk, Finite, Output, Print, RestOk, RestFinite, StackOk, StackFinite;
    var n := c.children[k];
    RestOkStep(c, k);
    RestFiniteStep(c, k, ftoa);
    KeysOkIs(n);
    FiniteIs(n, ftoa);
    StackPush(fs, Ctx(c, k), ftoa);
    OutputDescend(w, c, k, fs, style, ftoa);
  }

  /** The end of a container inside another one. */
  lemma SerializingClose(root: SNode, total: Bytes, w: Bytes, c: SNode, fs: seq<Ctx>, style: Style, ftoa: Ftoa)
    requires IsContainer(c) && Serializing(root, total, w, c, |c.children|, fs, style, ftoa) && w != [] && fs != []
    requires BadBefore(c, |c.children|) == 0
    requires var f := fs[|fs| - 1];
             BadBefore(f.parent, f.at) == 0 && !AtKey(f.parent.children, f.at, f.parent.SObject?)
    ensures var f := fs[|fs| - 1];
            Serializing(root, total, w[..|w| - 1] + [CloseOf(c.SObject?), COMMA], f.parent, f.at + 1, fs[..|fs| - 1],
              style, ftoa)
  {
    hide KeysOk, Finite, Output, Print, StackOk, StackFinite;
    StackPop(fs, ftoa);
    OutputClose(w, c, fs, style, ftoa);
  }

  /** The end of the outermost container. */
  lemma SerializingDone(root: SNode, total: Bytes, w: Bytes, c: SNode, style: Style, ftoa: Ftoa)
    requires IsContainer(c) && Serializing(root, total, w, c, |c.children|, [], style, ftoa) && w != []
    requires BadBefore(c, |c.children|) == 0
    ensures KeysOk(root) && Finite(root, ftoa) && w[..|w| - 1] + [CloseOf(c.SObject?), COMMA] == total
  {
    hide KeysOk, Finite, Output, Print;
    OutputClose(w, c, [], style, ftoa);
  }

  /** Once a bad key has been met, the root is not in order. */
  lemma SerializingBad(root: SNode, total: Bytes, w: Bytes, c: SNode, k: nat, fs: seq<Ctx>, style: Style, ftoa: Ftoa)
    requires Serializing(root, total, w, c, k, fs, style, ftoa)
    requires BadBefore(c, k) > 0 ||
             (k < |c.children| && AtKey(c.children, k, c.SObject?) && !c.children[k].SString?)
    ensures !KeysOk(root)
  {
    hide KeysOk, Finite, Output, Print;
  }

  lemma SerializingInfinite(root: SNode, total: Bytes, w: Bytes, c: SNode, k: nat, fs: seq<Ctx>, style: Style,
      ftoa: Ftoa)
    requires Serializing(root, total, w, c, k, fs, style, ftoa) && k < |c.children| && !Finite(c.children[k], ftoa)
    ensures !Finite(root, ftoa)
  {
    hide KeysOk, Finite, Output, Print;
  }

  // ---- printing one child ----

  /** A string; a key is followed by a colon. */
  method PutString(wb: WriteBuffer, str: Bytes, isKey: bool, style: Style, beyond: Bytes)
    requires wb.Valid() && |beyond| == VEC_LEN
    modifies wb, wb.buf
    ensures wb.Valid() && (fresh(wb.buf) || wb.buf == old(wb.buf))
    ensures wb.Contents() == old(wb.Contents()) + StringText(Pieces(str, style)) + [if isKey then COLON else COMMA]
  {
    hide Pieces, StringText;
    wb.Grow(|str| * 6 + 32 + 3);
    ghost var before, top := wb.Contents(), wb.top;
    var end := QuoteBlocks(str, wb.buf, wb.top, style, beyond);
    assert wb.buf[..top] == before;
    wb.PushSizeUnsafe(end);
    assert wb.Contents() == before + StringText(Pieces(str, style));
    wb.PushUnsafe(if isKey then COLON else COMMA);
  }

  /** The digits of a number, behind what the buffer holds. */
  method NumberBytes(buf: array<byte>, top: nat, n: SNode, ghost style: Style, ftoa: Ftoa)
    returns (err: SerError, end: nat)
    requires (n.SUint? || n.SInt? || n.SReal?) && Shaped(n) && ShortNumbers(ftoa) && top + NUMBER_SIZE <= buf.Length
    modifies buf
    ensures buf[..top] == old(buf[..top]) && top <= end <= top + 32
    ensures err == (if Finite(n, ftoa) then SerNone else SerInfinity)
    ensures err == SerNone ==> buf[top..end] == ScalarText(n, style, ftoa)
  {
    hide NumberText, Decimal;
    end := top;
    err := SerNone;
    match n {
      case SInt(i) => end := I64toa(buf, top, i);
      case SUint(u) =>
        end := U64toa(buf, top, u);
        NumberDigits(IntegerLiteral(u));
        assert [] + DigitText(Decimal(u)) == DigitText(Decimal(u));
      case SReal(bits) =>
        match ftoa(bits) {
          case None => err := SerInfinity;
          case Some(t) =>
            Store(buf, top, t);
            end := top + |t|;
        }
    }
  }

  /** A number. */
  method PutNumber(wb: WriteBuffer, n: SNode, ghost style: Style, ftoa: Ftoa) returns (err: SerError)
    requires wb.Valid() && (n.SUint? || n.SInt? || n.SReal?) && Shaped(n) && ShortNumbers(ftoa)
    modifies wb, wb.buf
    ensures wb.Valid() && (fresh(wb.buf) || wb.buf == old(wb.buf))
    ensures err == (if Finite(n, ftoa) then SerNone else SerInfinity)
    ensures err == SerNone ==> wb.Contents() == old(wb.Contents()) + ScalarText(n, style, ftoa) + [COMMA]
  {
    hide ScalarText, Finite, Shaped, ShortNumbers;
    wb.Grow(NUMBER_SIZE);
    ghost var before := wb.Contents();
    var end;
    err, end := NumberBytes(wb.buf, wb.top, n, style, ftoa);
    if err == SerNone {
      wb.PushSizeUnsafe(end);
      assert wb.Contents() == before + ScalarText(n, style, ftoa);
      wb.PushUnsafe(COMMA);
    }
  }

  const FALSE_8: Bytes := [0x66, 0x61, 0x6c, 0x73, 0x65, 0x2c, 0x20, 0x20]
  const TRUE_8: Bytes := [0x74, 0x72, 0x75, 0x65, 0x2c, 0x20, 0x20, 0x20]
  const NULL_8: Bytes := [0x6e, 0x75, 0x6c, 0x6c, 0x2c, 0x20, 0x20, 0x20]

  /** A child that is not a container with children, and its separator. */
  method PutChild(wb: WriteBuffer, n: SNode, isKey: bool, style: Style, ftoa: Ftoa, beyond: Bytes)
    returns (err: SerError)
    requires wb.Valid() && |beyond| == VEC_LEN && Shaped(n) && ShortNumbers(ftoa)
    requires IsContainer(n) ==> n.children == []
    modifies wb, wb.buf
    ensures wb.Valid() && (fresh(wb.buf) || wb.buf == old(wb.buf))
    ensures err == (if Finite(n, ftoa) then SerNone else SerInfinity)
    ensures err == SerNone ==>
              wb.Contents() ==
              old(wb.Contents()) + Print(n, style, ftoa) + [if n.SString? && isKey then COLON else COMMA]
  {
    hide Pieces, StringText, NumberText;
    ghost var before := wb.Contents();
    err := SerNone;
    match n {
      case SString(str) => PutString(wb, str, isKey, style, beyond);
      case SBool(b) =>
        wb.Push5_8(if b then TRUE_8 else FALSE_8, if b then 5 else 6);
        assert (if b then TRUE_8[..5] else FALSE_8[..6]) == (if b then TRUE_WORD else FALSE_WORD) + [COMMA];
        assert before + (Print(n, style, ftoa) + [COMMA]) == before + Print(n, style, ftoa) + [COMMA];
      case SNull =>
        wb.Push5_8(NULL_8, 5);
        assert NULL_8[..5] == NULL_WORD + [COMMA];
        assert before + (NULL_WORD + [COMMA]) == before + NULL_WORD + [COMMA];
      case SArray(_) => PutEmpty(wb, false);
      case SObject(_) => PutEmpty(wb, true);
      case _ => err := PutNumber(wb, n, style, ftoa);
    }
  }

  method PutEmpty(wb: WriteBuffer, isObj: bool)
    requires wb.Valid()
    modifies wb, wb.buf
    ensures wb.Valid() && (fresh(wb.buf) || wb.buf == old(wb.buf))
    ensures wb.Contents() == old(wb.Contents()) + [OpenOf(isObj), CloseOf(isObj)] + [COMMA]
  {
    wb.Grow(3);
    wb.PushUnsafe(OpenOf(isObj));
    wb.PushUnsafe(CloseOf(isObj));
    wb.PushUnsafe(COMMA);
  }

  // ---- the machine ----

  /** The whole of the machine's state; the node it looks at is c.children[k]. */
  ghost predicate State(root: SNode, total: Bytes, w: Bytes, c: SNode, k: nat, valCnt: nat, memberCnt: nat, isObj: bool,
      stk: seq<ParentCtx>, style: Style, ftoa: Ftoa)
  {
    Counting(c, k, valCnt, memberCnt, isObj) && Entries(stk) &&
    Serializing(root, total, w, Cut(c), k, Frames(stk), style, ftoa)
  }

  /** The work left. */
  ghost function Left(c: SNode, k: nat, stk: seq<ParentCtx>): nat
    requires IsContainer(Cut(c)) && k <= |Cut(c).children| && Entries(stk)
  {
    FramesValid(stk);
    RestSize(Cut(c), k) + StackSize(Frames(stk))
  }

  /** A child has been counted. */
  lemma CountingStep(c: SNode, k: nat, valCnt: nat, memberCnt: nat, isObj: bool)
    requires Counting(c, k, valCnt, memberCnt, isObj) && valCnt > 0
    ensures var isKey := isObj && valCnt % 2 == 0;
            && k < |c.children| && k < |Cut(c).children| && Cut(c).children[k] == Cut(c.children[k])
            && Shaped(c.children[k]) && (isKey <==> AtKey(c.children, k, c.SObject?))
            && AtKey(Cut(c).children, k, c.SObject?) == AtKey(c.children, k, c.SObject?)
            && (!Enters(c, k) ==>
                  (isKey && c.children[k].SString? ==>
                     memberCnt > 0 && Counting(c, k + 1, valCnt - 1, memberCnt - 1, isObj)) &&
                  (!(isKey && c.children[k].SString?) ==> Counting(c, k + 1, valCnt - 1, memberCnt, isObj)))
  {
    hide Shaped, Cut, EndSeen, Enters, BadBefore;
    ChildAhead(c, k, valCnt, memberCnt, isObj);
    if !Enters(c, k) {
      EndStays(c, k);
      BadStep(Cut(c), k);
      CutIs(c.children[k]);
      CutIs(c);
      if isObj && valCnt % 2 == 0 && c.children[k].SString? {
        assert memberCnt - 1 == (valCnt - 1) / 2 + BadBefore(Cut(c), k + 1);
      }
    }
  }

  lemma BadStep(c: SNode, k: nat)
    requires IsContainer(c) && k < |c.children|
    ensures BadBefore(c, k + 1) ==
            BadBefore(c, k) + if AtKey(c.children, k, c.SObject?) && !c.children[k].SString? then 1 else 0
  {}

  /** As long as values are due, the child is one of those printed. */
  lemma ChildAhead(c: SNode, k: nat, valCnt: nat, memberCnt: nat, isObj: bool)
    requires Counting(c, k, valCnt, memberCnt, isObj) && valCnt > 0
    ensures k < |c.children| && k < |Cut(c).children| && Cut(c).children[k] == Cut(c.children[k])
    ensures Shaped(c.children[k]) && c.SObject? == Cut(c).SObject?
    ensures isObj && valCnt % 2 == 0 <==> AtKey(c.children, k, c.SObject?)
    ensures AtKey(Cut(c).children, k, c.SObject?) == AtKey(c.children, k, c.SObject?)
  {
    hide Shaped, Cut, Overflown, BadBefore;
    CutIs(c);
    EndIsKept(c, k);
    CutChild(c, k);
    SameParity(|c.children|, EndSeen(c, k), k);
  }

  /** The test before descending: it fails exactly when a key is wrong. */
  lemma DescendTest(c: SNode, k: nat, valCnt: nat, memberCnt: nat, isObj: bool)
    requires Counting(c, k, valCnt, memberCnt, isObj) && valCnt > 0
    ensures k < |c.children|
    ensures isObj && 2 * memberCnt + 1 != valCnt <==>
            BadBefore(Cut(c), k) > 0 || AtKey(c.children, k, c.SObject?)
  {
    hide ShapedChildren, Cut, EndSeen;
    ChildAhead(c, k, valCnt, memberCnt, isObj);
  }

  /** Containers start with all their keys and values to go. */
  lemma CountingStart(n: SNode)
    requires IsContainer(n) && Shaped(n)
    ensures var size := if n.SObject? then |n.children| / 2 else |n.children|;
            Counting(n, 0, if n.SObject? then 2 * size else size, size, n.SObject?)
  {
    CutIs(n);
    hide Cut;
  }

  /** What a stack entry says when its container goes on. */
  lemma CountingResume(e: ParentCtx)
    requires Entry(e)
    ensures var valCnt, isObj := e.len / 2, e.len % 2 == 1;
            && valCnt > 0 && Counting(e.ptr.parent, e.ptr.at + 1, valCnt - 1, (valCnt - 1) / 2, isObj)
  {
    hide ShapedChildren, Cut, EndSeen, BadBefore;
    var c, k := e.ptr.parent, e.ptr.at;
    CutIs(c);
    CutChild(c, k);
    BadStep(Cut(c), k);
  }

  /** A child without children below it: is it well-formed as far as keys go. */
  lemma ChildOk(n: SNode)
    requires IsContainer(n) ==> n.children == []
    ensures KeysOk(n) && Cut(n) == n
  {
    CutLeaf(n);
  }

  lemma StepLess(c: SNode, k: nat, stk: seq<ParentCtx>)
    requires IsContainer(Cut(c)) && k < |Cut(c).children| && Entries(stk)
    ensures Left(c, k + 1, stk) < Left(c, k, stk)
  {
    hide Cut;
  }

  lemma RestSizeIs(c: SNode, k: nat)
    requires IsContainer(c) && k < |c.children| && IsContainer(c.children[k])
    ensures RestSize(c, k) == 1 + RestSize(c.children[k], 0) + RestSize(c, k + 1)
  {}

  lemma DescendLess(c: SNode, k: nat, stk: seq<ParentCtx>, e: ParentCtx, n: SNode, ftoa: Ftoa)
    requires IsContainer(Cut(c)) && k < |Cut(c).children| && Cut(c).children[k] == Cut(n) && IsContainer(Cut(n))
    requires Entries(stk) && Entry(e) && e.ptr == Ctx(c, k)
    ensures Entries(stk + [e]) && Left(n, 0, stk + [e]) < Left(c, k, stk)
  {
    hide Entry, Entries, Frames, StackSize, RestSize, StackOk, StackFinite, ValidStack, Cut;
    FramesValid(stk);
    FramesPush(stk, e);
    FramesValid(stk + [e]);
    EntryValid(e);
    StackPush(Frames(stk), Printed(e.ptr), ftoa);
    RestSizeIs(Cut(c), k);
  }

  lemma EntryValid(e: ParentCtx)
    requires Entry(e)
    ensures ValidCtx(Printed(e.ptr)) && ValidCtx(e.ptr)
  {}

  lemma CloseLess(c: SNode, stk: seq<ParentCtx>, ftoa: Ftoa)
    requires IsContainer(Cut(c)) && Entries(stk) && stk != []
    ensures var e, below := stk[|stk| - 1], stk[..|stk| - 1];
            Entries(below) && ValidCtx(Printed(e.ptr)) &&
            Left(e.ptr.parent, e.ptr.at + 1, below) < Left(c, |Cut(c).children|, stk)
  {
    hide Entry, Entries, Frames, StackSize, RestSize, StackOk, StackFinite, ValidStack, Cut;
    FramesValid(stk);
    FramesPop(stk);
    FramesValid(stk[..|stk| - 1]);
    EntryValid(stk[|stk| - 1]);
    StackPop(Frames(stk), ftoa);
    RestSizeEnd(Cut(c));
  }

  lemma RestSizeEnd(c: SNode)
    requires IsContainer(c)
    ensures RestSize(c, |c.children|) == 1
  {}

  /** val_begin: the child at k, when it is not a container with children. */
  method ChildStep(wb: WriteBuffer, c: SNode, k: nat, valCnt: nat, memberCnt: nat, isObj: bool,
      stk: seq<ParentCtx>, style: Style, ftoa: Ftoa, beyond: Bytes, ghost root: SNode, ghost total: Bytes)
    returns (err: SerError, members: nat)
    requires wb.Valid() && |beyond| == VEC_LEN && ShortNumbers(ftoa) && valCnt > 0
    requires State(root, total, wb.Contents(), c, k, valCnt, memberCnt, isObj, stk, style, ftoa)
    requires IsContainer(c) && k < |c.children| && (IsContainer(c.children[k]) ==> c.children[k].children == [])
    modifies wb, wb.buf
    ensures wb.Valid() && (fresh(wb.buf) || wb.buf == old(wb.buf))
    ensures err == SerNone ==>
              wb.Contents() != [] &&
              State(root, total, wb.Contents(), c, k + 1, valCnt - 1, members, isObj, stk, style, ftoa)
    ensures err != SerNone ==> err == SerInfinity && !Finite(root, ftoa)
  {
    hide Serializing, Counting, Entries, Frames, Finite, KeysOk, Print, Shaped, ShortNumbers, Cut;
    CountingStep(c, k, valCnt, memberCnt, isObj);
    var n := c.children[k];
    ChildOk(n);
    NotEntered(c, k);
    CutIs(c);
    var isKey := isObj && valCnt % 2 == 0;
    ghost var w := wb.Contents();
    members := memberCnt;
    err := PutChild(wb, n, isKey, style, ftoa, beyond);
    if err != SerNone {
      SerializingInfinite(root, total, w, Cut(c), k, Frames(stk), style, ftoa);
      return;
    }
    if n.SString? && isKey {
      members := members - 1;
    }
    SerializingStep(root, total, w, Cut(c), k, Frames(stk), style, ftoa, Print(n, style, ftoa),
      if n.SString? && isKey then COLON else COMMA);
  }

  lemma NotEntered(c: SNode, k: nat)
    requires IsContainer(c) && k < |c.children| && (IsContainer(c.children[k]) ==> c.children[k].children == [])
    ensures !Enters(c, k)
  {}

  /** A container with children: interrupt this one, unless a key was wrong. */
  method Descend(wb: WriteBuffer, c: SNode, k: nat, valCnt: nat, memberCnt: nat, isObj: bool, stk: seq<ParentCtx>,
      ghost style: Style, ghost ftoa: Ftoa, ghost root: SNode, ghost total: Bytes)
    returns (err: SerError, vals: nat, members: nat, stkNext: seq<ParentCtx>)
    requires wb.Valid() && valCnt > 0 && IsContainer(c) && k < |c.children|
    requires State(root, total, wb.Contents(), c, k, valCnt, memberCnt, isObj, stk, style, ftoa)
    requires IsContainer(c.children[k]) && c.children[k].children != []
    modifies wb, wb.buf
    ensures wb.Valid() && (fresh(wb.buf) || wb.buf == old(wb.buf))
    ensures err == SerNone ==>
              wb.Contents() != [] &&
              State(root, total, wb.Contents(), c.children[k], 0, vals, members, c.children[k].SObject?, stkNext,
                style, ftoa) &&
              Entries(stk) && Entries(stkNext) && IsContainer(Cut(c)) && k < |Cut(c).children| &&
              IsContainer(Cut(c.children[k])) && Left(c.children[k], 0, stkNext) < Left(c, k, stk)
    ensures err != SerNone ==> err == InvalidObjKey && !KeysOk(root)
  {
    hide Serializing, Frames, Finite, KeysOk, Print, Shaped, Entries, Counting, BadBefore, Cut;
    var n := c.children[k];
    ghost var w := wb.Contents();
    err, vals, members, stkNext := SerNone, 0, 0, stk;
    DescendTest(c, k, valCnt, memberCnt, isObj);
    CountingStep(c, k, valCnt, memberCnt, isObj);
    CutIs(c);
    CutIs(n);
    CutFull(n);
    var size := if n.SObject? then |n.children| / 2 else |n.children|;
    wb.Grow(3);
    if isObj && memberCnt * 2 + 1 != valCnt {
      KeyIsBad(c, k, n);
      SerializingBad(root, total, w, Cut(c), k, Frames(stk), style, ftoa);
      err := InvalidObjKey;
      return;
    }
    var e := ParentCtx(2 * valCnt % (2 * COUNT_END) + if isObj then 1 else 0, Ctx(c, k));
    EntryHolds(e, c, k, valCnt, memberCnt, isObj);
    stkNext := stk + [e];
    FramesPush(stk, e);
    vals := if n.SObject? then 2 * size else size;
    members := size;
    CountingStart(n);
    wb.PushUnsafe(OpenOf(n.SObject?));
    SerializingDescend(root, total, w, Cut(c), k, Frames(stk), style, ftoa);
    DescendLess(c, k, stk, e, n, ftoa);
  }

  /** A container is no key. */
  lemma KeyIsBad(c: SNode, k: nat, n: SNode)
    requires IsContainer(c) && k < |c.children| && n == c.children[k] && IsContainer(n)
    ensures !Cut(n).SString?
  {
    CutIs(n);
  }

  lemma EntryHolds(e: ParentCtx, c: SNode, k: nat, valCnt: nat, memberCnt: nat, isObj: bool)
    requires Counting(c, k, valCnt, memberCnt, isObj) && valCnt > 0 && k < |c.children|
    requires IsContainer(c.children[k]) && c.children[k].children != []
    requires !AtKey(c.children, k, c.SObject?) && BadBefore(Cut(c), k) == 0
    requires e == ParentCtx(2 * valCnt % (2 * COUNT_END) + if isObj then 1 else 0, Ctx(c, k))
    ensures Entry(e)
  {
    hide BadBefore, Shaped, Cut, EndSeen;
    ChildAhead(c, k, valCnt, memberCnt, isObj);
    CutIs(c);
    if c.SObject? {
      EndMoves(c, k);
    } else {
      SmallEnd(c, k);
      SmallEnd(c, k + 1);
    }
  }

  /** scope_end: the bracket takes the place of the last separator. */
  method Close(wb: WriteBuffer, c: SNode, memberCnt: nat, isObj: bool, ghost stk: seq<ParentCtx>, ghost style: Style,
      ghost ftoa: Ftoa, ghost root: SNode, ghost total: Bytes) returns (err: SerError)
    requires wb.Valid() && IsContainer(c) && IsContainer(Cut(c)) && wb.Contents() != []
    requires State(root, total, wb.Contents(), c, |Cut(c).children|, 0, memberCnt, isObj, stk, style, ftoa)
    modifies wb, wb.buf
    ensures wb.Valid() && (fresh(wb.buf) || wb.buf == old(wb.buf))
    ensures err == SerNone ==>
              wb.Contents() != [] && |wb.Contents()| >= 2 &&
              if stk == [] then KeysOk(root) && Finite(root, ftoa) && wb.Contents() == total
              else
                var e, below := stk[|stk| - 1], stk[..|stk| - 1];
                Entry(e) && Entries(below) &&
                Serializing(root, total, wb.Contents(), Cut(e.ptr.parent), e.ptr.at + 1, Frames(below), style, ftoa)
    ensures err != SerNone ==> err == InvalidObjKey && !KeysOk(root)
  {
    hide Serializing, Frames, Finite, KeysOk, Entries, ShapedChildren, BadBefore, Cut, EndSeen;
    CutIs(c);
    ghost var w := wb.Contents();
    err := SerNone;
    wb.Pop(1);
    if memberCnt > 0 && isObj {
      SerializingBad(root, total, w, Cut(c), |Cut(c).children|, Frames(stk), style, ftoa);
      err := InvalidObjKey;
      return;
    }
    NoBadKeys(c, memberCnt, isObj);
    ghost var v := wb.Contents();
    wb.Grow(2);
    wb.PushUnsafe(CloseOf(isObj));
    wb.PushUnsafe(COMMA);
    assert v + [CloseOf(isObj)] + [COMMA] == w[..|w| - 1] + [CloseOf(isObj), COMMA];
    if stk == [] {
      NoFrames();
      SerializingDone(root, total, w, Cut(c), style, ftoa);
    } else {
      FramesPop(stk);
      EntryReady(stk[|stk| - 1]);
      SerializingClose(root, total, w, Cut(c), Frames(stk), style, ftoa);
    }
  }

  /** The interrupted container goes on behind a value. */
  lemma EntryReady(e: ParentCtx)
    requires Entry(e)
    ensures var f := Printed(e.ptr);
            ValidCtx(f) && BadBefore(f.parent, f.at) == 0 && !AtKey(f.parent.children, f.at, f.parent.SObject?)
  {
    hide Cut, EndSeen, BadBefore, ShapedChildren;
    CutIs(e.ptr.parent);
    CutChild(e.ptr.parent, e.ptr.at);
  }

  lemma NoFrames()
    ensures Frames([]) == []
  {}

  lemma NoBadKeys(c: SNode, memberCnt: nat, isObj: bool)
    requires IsContainer(Cut(c)) && Counting(c, |Cut(c).children|, 0, memberCnt, isObj) && !(memberCnt > 0 && isObj)
    ensures BadBefore(Cut(c), |Cut(c).children|) == 0
  {
    CutIs(c);
    hide ShapedChildren, Cut, EndSeen;
  }

  /** The serializer: the text of the recursive printer for what 31-bit counters leave of the tree, unless
      some object of that has a key that is not a string or some double is not finite. */
  method SerializeImpl(wb: WriteBuffer, root: SNode, style: Style, ftoa: Ftoa, beyond: Bytes) returns (err: SerError)
    requires wb.Valid() && Shaped(root) && |beyond| == VEC_LEN && ShortNumbers(ftoa)
    modifies wb, wb.buf
    ensures wb.Valid()
    ensures err == SerNone ==>
              KeysOk(Cut(root)) && Finite(Cut(root), ftoa) && wb.Contents() == Print(Cut(root), style, ftoa)
    ensures err == InvalidObjKey ==> !KeysOk(Cut(root))
    ensures err == SerInfinity ==> !Finite(Cut(root), ftoa)
    ensures Finite(Cut(root), ftoa) ==> (err == InvalidObjKey <==> !KeysOk(Cut(root)))
  {
    hide Serializing, Counting, Frames, Finite, KeysOk, Print, Entries, ShortNumbers, State, Cut;
    var nodeNums := if IsContainer(root) then |root.children| else 1;
    wb.Clear();
    wb.Reserve(nodeNums * 18 + 64);
    var isObj := root.SObject?;
    var isSingle := !IsContainer(root) || root.children == [];
    var c, k: nat, valCnt: nat, memberCnt: nat := root, 0, 1, 0;
    ghost var total := Print(Cut(root), style, ftoa) + [COMMA];
    if isSingle {
      c := Wrapper(root);
      total := Print(Cut(root), style, ftoa) + [CloseOf(isObj), COMMA];
      SingleState(root, style, ftoa);
    } else {
      memberCnt := if isObj then |root.children| / 2 else |root.children|;
      valCnt := if isObj then 2 * memberCnt else memberCnt;
      wb.PushUnsafe(OpenOf(isObj));
      RootState(root, style, ftoa);
      assert [] + [OpenOf(isObj)] == [OpenOf(isObj)];
    }
    err := Loop(wb, c, valCnt, memberCnt, isObj, style, ftoa, beyond, Cut(root), total);
    if err == SerNone {
      wb.Pop(if isSingle then 2 else 1);
    }
  }

  lemma SingleState(root: SNode, style: Style, ftoa: Ftoa)
    requires Shaped(root) && (!IsContainer(root) || root.children == [])
    ensures State(Cut(root), Print(Cut(root), style, ftoa) + [CloseOf(root.SObject?), COMMA], [], Wrapper(root), 0,
              1, 0, root.SObject?, [], style, ftoa)
  {
    hide Serializing, Print, KeysOk, Finite, Cut, Counting;
    CutLeaf(root);
    WrapperCut(root);
    SerializingSingle(root, style, ftoa);
    NoFrames();
  }

  lemma WrapperCut(root: SNode)
    requires Shaped(root) && (!IsContainer(root) || root.children == [])
    ensures Cut(Wrapper(root)) == Wrapper(root) && Counting(Wrapper(root), 0, 1, 0, root.SObject?)
  {
    hide Shaped, Cut;
    var c := Wrapper(root);
    CutLeaf(root);
    SmallEnd(c, 0);
    SmallEnd(c, 1);
    CutIs(c);
    CutChild(c, 0);
    assert Cut(c).children == c.children;
  }

  lemma RootState(root: SNode, style: Style, ftoa: Ftoa)
    requires Shaped(root) && IsContainer(root) && root.children != []
    ensures var size := if root.SObject? then |root.children| / 2 else |root.children|;
            State(Cut(root), Print(Cut(root), style, ftoa) + [COMMA], [OpenOf(root.SObject?)], root, 0,
              if root.SObject? then 2 * size else size, size, root.SObject?, [], style, ftoa)
  {
    hide Serializing, Print, KeysOk, Finite, Counting, Cut;
    CutIs(root);
    CutFull(root);
    SerializingStart(Cut(root), style, ftoa);
    CountingStart(root);
    NoFrames();
  }

  /** The gotos, from the first child of c to the end of the document. */
  method Loop(wb: WriteBuffer, c0: SNode, valCnt0: nat, memberCnt0: nat, isObj0: bool, style: Style, ftoa: Ftoa,
      beyond: Bytes, ghost root: SNode, ghost total: Bytes) returns (err: SerError)
    requires wb.Valid() && |beyond| == VEC_LEN && ShortNumbers(ftoa) && valCnt0 > 0
    requires State(root, total, wb.Contents(), c0, 0, valCnt0, memberCnt0, isObj0, [], style, ftoa)
    modifies wb, wb.buf
    ensures wb.Valid()
    ensures err == SerNone ==> KeysOk(root) && Finite(root, ftoa) && wb.Contents() == total
    ensures err == InvalidObjKey ==> !KeysOk(root)
    ensures err == SerInfinity ==> !Finite(root, ftoa)
  {
    hide Serializing, Counting, Frames, Finite, KeysOk, Print, Entries, ShortNumbers, State, Left, Cut;
    var c, k: nat, valCnt: nat, memberCnt: nat, isObj := c0, 0, valCnt0, memberCnt0, isObj0;
    var stk: seq<ParentCtx> := [];
    while true
      invariant wb.Valid() && (fresh(wb.buf) || wb.buf == old(wb.buf))
      invariant State(root, total, wb.Contents(), c, k, valCnt, memberCnt, isObj, stk, style, ftoa)
      invariant valCnt == 0 ==> wb.Contents() != []
      decreases if IsContainer(Cut(c)) && k <= |Cut(c).children| && Entries(stk) then Left(c, k, stk) else 0
    {
      StateShape(root, total, wb.Contents(), c, k, valCnt, memberCnt, isObj, stk, style, ftoa);
      if valCnt != 0 {
        var n := c.children[k];
        if IsContainer(n) && n.children != [] {
          err, valCnt, memberCnt, stk := Descend(wb, c, k, valCnt, memberCnt, isObj, stk, style, ftoa, root, total);
          if err != SerNone {
            return;
          }
          isObj := n.SObject?;
          c, k := n, 0;
        } else {
          err, memberCnt :=
            ChildStep(wb, c, k, valCnt, memberCnt, isObj, stk, style, ftoa, beyond, root, total);
          if err != SerNone {
            return;
          }
          StepLess(c, k, stk);
          valCnt, k := valCnt - 1, k + 1;
        }
      } else {
        err := Close(wb, c, memberCnt, isObj, stk, style, ftoa, root, total);
        if err != SerNone || stk == [] {
          return;
        }
        var parent := stk[|stk| - 1];
        CountingResume(parent);
        CloseLess(c, stk, ftoa);
        valCnt, isObj := parent.len / 2, parent.len % 2 == 1;
        memberCnt := (valCnt - 1) / 2;
        valCnt := valCnt - 1;
        c, k := parent.ptr.parent, parent.ptr.at + 1;
        stk := stk[..|stk| - 1];
        Resumed(root, total, wb.Contents(), c, k, valCnt, memberCnt, isObj, stk, style, ftoa);
      }
      StateShape(root, total, wb.Contents(), c, k, valCnt, memberCnt, isObj, stk, style, ftoa);
    }
  }

  lemma Resumed(root: SNode, total: Bytes, w: Bytes, c: SNode, k: nat, valCnt: nat, memberCnt: nat, isObj: bool,
      stk: seq<ParentCtx>, style: Style, ftoa: Ftoa)
    requires Counting(c, k, valCnt, memberCnt, isObj) && Entries(stk)
    requires Serializing(root, total, w, Cut(c), k, Frames(stk), style, ftoa)
    ensures State(root, total, w, c, k, valCnt, memberCnt, isObj, stk, style, ftoa)
  {}

  lemma StateShape(root: SNode, total: Bytes, w: Bytes, c: SNode, k: nat, valCnt: nat, memberCnt: nat, isObj: bool,
      stk: seq<ParentCtx>, style: Style, ftoa: Ftoa)
    requires State(root, total, w, c, k, valCnt, memberCnt, isObj, stk, style, ftoa)
    ensures IsContainer(c) && IsContainer(Cut(c)) && k <= |Cut(c).children| && k <= |c.children| && Entries(stk)
    ensures isObj == c.SObject? && (if valCnt == 0 then k == |Cut(c).children| else k < |Cut(c).children|)
    ensures valCnt > 0 ==> k < |c.children|
  {
    hide Serializing, Entries, EndSeen, Cut;
    CutIs(c);
    EndIsKept(c, k);
  }
}
