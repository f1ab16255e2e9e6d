/** What serializing a node tree means: a recursive printer, and the invariant view the goto machine keeps
    of what is still to be printed. */
module Printer {
  import opened Options
  import opened Json
  import opened Quote
  import opened Itoa

  /** A node as the serializer meets it: an object's children are keys and values in turn, and nothing
      makes the keys strings. */
  datatype SNode =
    | SNull
    | SBool(b: bool)
    | SUint(u: nat)
    | SInt(i: int)
    | SReal(bits: nat)
    | SString(s: Bytes)
    | SArray(children: seq<SNode>)
    | SObject(children: seq<SNode>)

  /** How a double is printed; None for infinities and not-a-numbers. */
  type Ftoa = nat -> Option<Bytes>

  const MAX_SIZE := 0x8000_0000

  /** Numbers in their ranges, members in pairs, fewer than 2^31 children or members each. */
  predicate Shaped(n: SNode) {
    match n
    case SUint(u) => u < U64_END
    case SInt(i) => 0 - I64_END <= i < I64_END
    case SArray(cs) => |cs| < MAX_SIZE && forall k :: 0 <= k < |cs| ==> Shaped(cs[k])
    case SObject(cs) => |cs| % 2 == 0 && |cs| < 2 * MAX_SIZE && forall k :: 0 <= k < |cs| ==> Shaped(cs[k])
    case _ => true
  }

  predicate IsContainer(n: SNode) { n.SArray? || n.SObject? }

  /** Counting from the end, keys stand at even places. */
  predicate AtKey(cs: seq<SNode>, k: nat, isObj: bool)
    requires k < |cs|
  {
    isObj && (|cs| - k) % 2 == 0
  }

  /** Every object inside has string keys only. */
  predicate KeysOk(n: SNode) {
    IsContainer(n) ==>
      forall k :: 0 <= k < |n.children| ==>
        KeysOk(n.children[k]) && (AtKey(n.children, k, n.SObject?) ==> n.children[k].SString?)
  }

  /** Every double inside is finite. */
  predicate Finite(n: SNode, ftoa: Ftoa) {
    (n.SReal? ==> ftoa(n.bits).Some?) &&
    (IsContainer(n) ==> forall k :: 0 <= k < |n.children| ==> Finite(n.children[k], ftoa))
  }

  function OpenOf(isObj: bool): byte { if isObj then OPEN_OBJECT else OPEN_ARRAY }
  function CloseOf(isObj: bool): byte { if isObj then CLOSE_OBJECT else CLOSE_ARRAY }

  function ScalarText(n: SNode, style: Style, ftoa: Ftoa): Bytes
    requires !IsContainer(n)
  {
    match n
    case SNull => NULL_WORD
    case SBool(b) => if b then TRUE_WORD else FALSE_WORD
    case SUint(u) => NumberText(IntegerLiteral(u))
    case SInt(i) => NumberText(IntegerLiteral(i))
    case SReal(bits) => (match ftoa(bits) case Some(t) => t case None => [])
    case SString(s) => StringText(Pieces(s, style))
  }

  /** The text of a node. */
  function Print(n: SNode, style: Style, ftoa: Ftoa): (t: Bytes)
    decreases n, if IsContainer(n) then |n.children| + 1 else 0
  {
    if !IsContainer(n) then ScalarText(n, style, ftoa)
    else if n.children == [] then [OpenOf(n.SObject?), CloseOf(n.SObject?)]
    else
      var items := Items(n, 0, style, ftoa);
      [OpenOf(n.SObject?)] + items[..|items| - 1] + [CloseOf(n.SObject?)]
  }

  function Separator(cs: seq<SNode>, k: nat, isObj: bool): byte
    requires k < |cs|
  {
    if AtKey(cs, k, isObj) then COLON else COMMA
  }

  /** The children from k on, each with the separator behind it. */
  function Items(n: SNode, k: nat, style: Style, ftoa: Ftoa): (t: Bytes)
    requires IsContainer(n) && k <= |n.children|
    ensures k < |n.children| ==> t != []
    decreases n, |n.children| - k
  {
    if k == |n.children| then []
    else Print(n.children[k], style, ftoa) + [Separator(n.children, k, n.SObject?)] + Items(n, k + 1, style, ftoa)
  }

  // ---- the machine's view: what is still to be done ----

  /** A container whose printing was interrupted at its child `at`. */
  datatype Ctx = Ctx(parent: SNode, at: nat)

  predicate ValidCtx(f: Ctx) { IsContainer(f.parent) && f.at < |f.parent.children| }

  predicate ValidStack(stk: seq<Ctx>) { forall i :: 0 <= i < |stk| ==> ValidCtx(stk[i]) }

  /** The whole output once everything left has been printed behind w: the last separator of a container
      makes room for its bracket. */
  function Output(w: Bytes, c: SNode, k: nat, stk: seq<Ctx>, style: Style, ftoa: Ftoa): Bytes
    requires IsContainer(c) && k <= |c.children| && (w != [] || k < |c.children|) && ValidStack(stk)
    decreases |stk|
  {
    var x := w + Items(c, k, style, ftoa);
    var y := x[..|x| - 1] + [CloseOf(c.SObject?), COMMA];
    if stk == [] then y
    else
      var f := stk[|stk| - 1];
      Output(y, f.parent, f.at + 1, stk[..|stk| - 1], style, ftoa)
  }

  /** Keys before k that are not strings. */
  function BadBefore(c: SNode, k: nat): (b: nat)
    requires IsContainer(c) && k <= |c.children|
    ensures b <= k && (!c.SObject? ==> b == 0)
  {
    if k == 0 then 0
    else BadBefore(c, k - 1) + if AtKey(c.children, k - 1, c.SObject?) && !c.children[k - 1].SString? then 1 else 0
  }

  /** The children from k on are in order. */
  predicate RestOk(c: SNode, k: nat)
    requires IsContainer(c) && k <= |c.children|
  {
    forall j :: k <= j < |c.children| ==>
      KeysOk(c.children[j]) && (AtKey(c.children, j, c.SObject?) ==> c.children[j].SString?)
  }

  predicate StackOk(stk: seq<Ctx>)
    requires ValidStack(stk)
  {
    forall i :: 0 <= i < |stk| ==> RestOk(stk[i].parent, stk[i].at + 1)
  }

  /** Every double still to be printed is finite. */
  predicate RestFinite(c: SNode, k: nat, ftoa: Ftoa)
    requires IsContainer(c) && k <= |c.children|
  {
    forall j :: k <= j < |c.children| ==> Finite(c.children[j], ftoa)
  }

  predicate StackFinite(stk: seq<Ctx>, ftoa: Ftoa)
    requires ValidStack(stk)
  {
    forall i :: 0 <= i < |stk| ==> RestFinite(stk[i].parent, stk[i].at + 1, ftoa)
  }

  /** How much work is left. */
  function Size(n: SNode): (w: nat)
    ensures w > 0
    decreases n, if IsContainer(n) then |n.children| + 1 else 0
  {
    1 + if IsContainer(n) then RestSize(n, 0) else 0
  }

  function RestSize(c: SNode, k: nat): (w: nat)
    requires IsContainer(c) && k <= |c.children|
    ensures w > 0
    decreases c, |c.children| - k
  {
    if k == |c.children| then 1 else Size(c.children[k]) + RestSize(c, k + 1)
  }

  function StackSize(stk: seq<Ctx>): nat
    requires ValidStack(stk)
  {
    if stk == [] then 0
    else
      var f := stk[|stk| - 1];
      RestSize(f.parent, f.at + 1) + StackSize(stk[..|stk| - 1])
  }

  // ---- steps ----

  /** One child more has been printed with its separator. */
  lemma OutputStep(w: Bytes, c: SNode, k: nat, stk: seq<Ctx>, style: Style, ftoa: Ftoa)
    requires IsContainer(c) && k < |c.children| && ValidStack(stk)
    ensures Output(w, c, k, stk, style, ftoa) ==
            Output(w + Print(c.children[k], style, ftoa) + [Separator(c.children, k, c.SObject?)], c, k + 1, stk,
              style, ftoa)
  {
    hide Print;
    var p, q := Print(c.children[k], style, ftoa), [Separator(c.children, k, c.SObject?)];
    assert w + (p + q + Items(c, k + 1, style, ftoa)) == w + p + q + Items(c, k + 1, style, ftoa);
  }

  /** Going into a container that is not in key position. */
  lemma OutputDescend(w: Bytes, c: SNode, k: nat, stk: seq<Ctx>, style: Style, ftoa: Ftoa)
    requires IsContainer(c) && k < |c.children| && ValidStack(stk) && !AtKey(c.children, k, c.SObject?)
    requires var n := c.children[k]; IsContainer(n) && n.children != []
    ensures var n := c.children[k];
            ValidStack(stk + [Ctx(c, k)]) &&
            Output(w, c, k, stk, style, ftoa) ==
            Output(w + [OpenOf(n.SObject?)], n, 0, stk + [Ctx(c, k)], style, ftoa)
  {
    hide Items;
    var n := c.children[k];
    var gs := stk + [Ctx(c, k)];
    assert gs[..|gs| - 1] == stk && gs[|gs| - 1] == Ctx(c, k);
    var items := Items(n, 0, style, ftoa);
    var x := w + [OpenOf(n.SObject?)] + items;
    assert x[..|x| - 1] == w + [OpenOf(n.SObject?)] + items[..|items| - 1];
    OutputStep(w, c, k, stk, style, ftoa);
    assert x[..|x| - 1] + [CloseOf(n.SObject?), COMMA] == w + Print(n, style, ftoa) + [COMMA];
  }

  /** A finished container. */
  lemma OutputClose(w: Bytes, c: SNode, stk: seq<Ctx>, style: Style, ftoa: Ftoa)
    requires IsContainer(c) && w != [] && ValidStack(stk)
    ensures var y := w[..|w| - 1] + [CloseOf(c.SObject?), COMMA];
            Output(w, c, |c.children|, stk, style, ftoa) ==
            if stk == [] then y
            else Output(y, stk[|stk| - 1].parent, stk[|stk| - 1].at + 1, stk[..|stk| - 1], style, ftoa)
  {
    assert w + [] == w;
  }

  /** What the root prints, seen from the machine's first state. */
  lemma OutputRoot(root: SNode, style: Style, ftoa: Ftoa)
    requires IsContainer(root) && root.children != []
    ensures Output([OpenOf(root.SObject?)], root, 0, [], style, ftoa) == Print(root, style, ftoa) + [COMMA]
  {
    hide Items;
    var items := Items(root, 0, style, ftoa);
    var x := [OpenOf(root.SObject?)] + items;
    assert x[..|x| - 1] == [OpenOf(root.SObject?)] + items[..|items| - 1];
  }

  /** A root that is a scalar or an empty container is printed as the only child of a made-up one. */
  function Wrapper(root: SNode): SNode { if root.SObject? then SObject([root]) else SArray([root]) }

  lemma OutputSingle(root: SNode, style: Style, ftoa: Ftoa)
    ensures Output([], Wrapper(root), 0, [], style, ftoa) ==
            Print(root, style, ftoa) + [CloseOf(root.SObject?), COMMA]
    ensures KeysOk(Wrapper(root)) == KeysOk(root) && Finite(Wrapper(root), ftoa) == Finite(root, ftoa)
  {
    hide Print;
    var c := Wrapper(root);
    var p := Print(root, style, ftoa);
    OutputStep([], c, 0, [], style, ftoa);
    assert [] + p + [COMMA] == p + [COMMA];
    OutputClose(p + [COMMA], c, [], style, ftoa);
    assert c.children[0] == root;
  }

  lemma RestOkStep(c: SNode, k: nat)
    requires IsContainer(c) && k < |c.children|
    ensures RestOk(c, k) <==>
            KeysOk(c.children[k]) && (AtKey(c.children, k, c.SObject?) ==> c.children[k].SString?) && RestOk(c, k + 1)
  {
    hide KeysOk;
  }

  lemma KeysOkIs(n: SNode)
    requires IsContainer(n)
    ensures KeysOk(n) <==> RestOk(n, 0)
  {
    hide AtKey;
  }

  lemma RestFiniteStep(c: SNode, k: nat, ftoa: Ftoa)
    requires IsContainer(c) && k < |c.children|
    ensures RestFinite(c, k, ftoa) <==> Finite(c.children[k], ftoa) && RestFinite(c, k + 1, ftoa)
  {
    hide Finite;
  }

  lemma FiniteIs(n: SNode, ftoa: Ftoa)
    requires IsContainer(n)
    ensures Finite(n, ftoa) <==> RestFinite(n, 0, ftoa)
  {}

  lemma StackPush(stk: seq<Ctx>, f: Ctx, ftoa: Ftoa)
    requires ValidStack(stk) && ValidCtx(f)
    ensures ValidStack(stk + [f])
    ensures StackOk(stk + [f]) <==> StackOk(stk) && RestOk(f.parent, f.at + 1)
    ensures StackFinite(stk + [f], ftoa) <==> StackFinite(stk, ftoa) && RestFinite(f.parent, f.at + 1, ftoa)
    ensures StackSize(stk + [f]) == StackSize(stk) + RestSize(f.parent, f.at + 1)
  {
    hide RestOk, RestFinite, RestSize;
    var gs := stk + [f];
    assert gs[..|gs| - 1] == stk && gs[|gs| - 1] == f;
    if StackOk(gs) {
      forall i | 0 <= i < |stk|
        ensures RestOk(stk[i].parent, stk[i].at + 1)
      {
        assert gs[i] == stk[i];
      }
    }
    if StackFinite(gs, ftoa) {
      forall i | 0 <= i < |stk|
        ensures RestFinite(stk[i].parent, stk[i].at + 1, ftoa)
      {
        assert gs[i] == stk[i];
      }
    }
  }

  lemma StackPop(stk: seq<Ctx>, ftoa: Ftoa)
    requires ValidStack(stk) && stk != []
    ensures var f, below := stk[|stk| - 1], stk[..|stk| - 1];
            && ValidStack(below) && ValidCtx(f)
            && (StackOk(stk) <==> StackOk(below) && RestOk(f.parent, f.at + 1))
            && (StackFinite(stk, ftoa) <==> StackFinite(below, ftoa) && RestFinite(f.parent, f.at + 1, ftoa))
            && StackSize(stk) == StackSize(below) + RestSize(f.parent, f.at + 1)
  {
    hide RestOk, RestFinite, RestSize, ValidCtx, StackOk, StackFinite, StackSize;
    var f, below := stk[|stk| - 1], stk[..|stk| - 1];
    assert stk == below + [f];
    StackPush(below, f, ftoa);
  }
}
