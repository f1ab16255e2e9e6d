/** What 31 bits for the remaining values of an interrupted container do: an object that is left for a child
    with 2^31 or more values to go comes back with 2^31 fewer. */
module CutObjects {
  import opened Quote
  import opened Printer

  /** The values one word cannot count beside its kind bit. */
  const COUNT_END := 0x8000_0000

  /** An object's value that the machine goes into, leaving the object. */
  predicate Enters(n: SNode, k: nat)
    requires IsContainer(n) && k < |n.children|
  {
    n.SObject? && !AtKey(n.children, k, true) && IsContainer(n.children[k]) && n.children[k].children != []
  }

  /** Before child k the container has been left with too many values to go. */
  ghost predicate Overflown(n: SNode, k: nat)
    requires IsContainer(n) && k <= |n.children|
  {
    exists j: nat :: j < k && j + COUNT_END <= |n.children| && Enters(n, j)
  }

  /** Where the machine takes the container to end, once it is at child k. */
  ghost function EndSeen(n: SNode, k: nat): (e: nat)
    requires IsContainer(n) && k <= |n.children|
  {
    if Overflown(n, k) then |n.children| - COUNT_END else |n.children|
  }

  /** How many children are printed. */
  ghost function Kept(n: SNode): nat
    requires IsContainer(n)
  {
    EndSeen(n, |n.children|)
  }

  /** The tree that is printed. */
  ghost function Cut(n: SNode): SNode {
    match n
    case SArray(cs) => SArray(seq(Kept(n), i requires 0 <= i < Kept(n) => Cut(cs[i])))
    case SObject(cs) => SObject(seq(Kept(n), i requires 0 <= i < Kept(n) => Cut(cs[i])))
    case _ => n
  }

  /** No object inside is left with too many values to go. */
  ghost predicate Fits(n: SNode) {
    IsContainer(n) ==>
      !Overflown(n, |n.children|) && forall k :: 0 <= k < |n.children| ==> Fits(n.children[k])
  }

  // ---- the machine's view ----

  lemma CutIs(n: SNode)
    ensures IsContainer(n) <==> IsContainer(Cut(n))
    ensures n.SObject? <==> Cut(n).SObject?
    ensures n.SString? <==> Cut(n).SString?
    ensures IsContainer(n) ==> |Cut(n).children| == Kept(n) <= |n.children|
    ensures !IsContainer(n) ==> Cut(n) == n
  {}

  lemma CutChild(n: SNode, k: nat)
    requires IsContainer(n) && k < Kept(n)
    ensures |Cut(n).children| == Kept(n) <= |n.children| && Cut(n).children[k] == Cut(n.children[k])
    ensures AtKey(Cut(n).children, k, n.SObject?) == AtKey(n.children, k, n.SObject?)
  {
    hide Cut, Overflown;
    CutIs(n);
    CutAt(n, k);
    SameParity(|n.children|, Kept(n), k);
  }

  lemma CutAt(n: SNode, k: nat)
    requires IsContainer(n) && k < Kept(n)
    ensures IsContainer(Cut(n)) && k < |Cut(n).children| && k < |n.children|
    ensures Cut(n).children[k] == Cut(n.children[k])
  {
    hide Overflown, EndSeen;
    CutIs(n);
  }

  lemma SameParity(len: nat, kept: nat, k: nat)
    requires kept == len || kept == len - COUNT_END
    ensures (kept - k) % 2 == (len - k) % 2
  {}

  /** The child after which the end moves is kept itself. */
  lemma EntersKept(n: SNode, j: nat)
    requires IsContainer(n) && j + COUNT_END <= |n.children| && Enters(n, j)
    ensures Overflown(n, |n.children|) && j < Kept(n)
  {}

  /** Before the end seen, children are kept; at the end seen they are all done. */
  lemma EndIsKept(n: SNode, k: nat)
    requires IsContainer(n) && k <= Kept(n)
    ensures k <= |n.children| && Kept(n) <= EndSeen(n, k) && (k < EndSeen(n, k) ==> k < Kept(n))
  {
    hide Enters;
    if !Overflown(n, k) && Overflown(n, |n.children|) {
      var j: nat :| j < |n.children| && j + COUNT_END <= |n.children| && Enters(n, j);
      assert k <= j;
      EntersKept(n, j);
    }
  }

  /** A child that is not entered leaves the end where it is. */
  lemma EndStays(n: SNode, k: nat)
    requires IsContainer(n) && k < |n.children| && !Enters(n, k)
    ensures EndSeen(n, k + 1) == EndSeen(n, k)
  {
    hide Enters;
    if Overflown(n, k + 1) {
      var j: nat :| j < k + 1 && j + COUNT_END <= |n.children| && Enters(n, j);
      assert j < k;
    }
  }

  /** What the word holds of the values to go when a child is entered. */
  lemma EndMoves(n: SNode, k: nat)
    requires IsContainer(n) && k < |n.children| && k <= Kept(n) && Enters(n, k) && |n.children| < 2 * COUNT_END
    ensures k < EndSeen(n, k) && k < EndSeen(n, k + 1)
    ensures (2 * (EndSeen(n, k) - k)) % (2 * COUNT_END) == 2 * (EndSeen(n, k + 1) - k)
  {
    hide Enters;
    if k + COUNT_END <= |n.children| {
      EntersKept(n, k);
    }
    EndIsKept(n, k);
    if Overflown(n, k) {
      OverflownLater(n, k, k + 1);
    }
  }

  lemma OverflownLater(n: SNode, k: nat, m: nat)
    requires IsContainer(n) && k <= m <= |n.children| && Overflown(n, k)
    ensures Overflown(n, m)
  {
    hide Enters;
    var j: nat :| j < k && j + COUNT_END <= |n.children| && Enters(n, j);
  }

  /** Arrays, and objects of fewer than 2^31 values, are never cut. */
  lemma SmallEnd(n: SNode, k: nat)
    requires IsContainer(n) && k <= |n.children| && (n.SArray? || |n.children| < COUNT_END)
    ensures EndSeen(n, k) == |n.children|
  {}

  lemma CutLeaf(n: SNode)
    requires IsContainer(n) ==> n.children == []
    ensures Cut(n) == n
  {}

  lemma CutFull(n: SNode)
    requires IsContainer(n) && n.children != []
    ensures Cut(n).children != [] && Kept(n) > 0
  {
    if Overflown(n, |n.children|) {
      var j: nat :| j < |n.children| && j + COUNT_END <= |n.children| && Enters(n, j);
      EntersKept(n, j);
    }
  }

  // ---- when nothing is lost ----

  lemma {:induction false} CutNothing(n: SNode)
    requires Fits(n)
    ensures Cut(n) == n
    decreases n
  {
    if IsContainer(n) {
      forall k | 0 <= k < |n.children|
        ensures Cut(n.children[k]) == n.children[k]
      {
        CutNothing(n.children[k]);
      }
      assert Cut(n).children == n.children;
    }
  }

  /** A tree that does not fit is printed shorter than it is. */
  lemma {:induction false} CutShorter(n: SNode, style: Style, ftoa: Ftoa)
    ensures |Print(Cut(n), style, ftoa)| <= |Print(n, style, ftoa)|
    ensures !Fits(n) ==> |Print(Cut(n), style, ftoa)| < |Print(n, style, ftoa)|
    decreases n, if IsContainer(n) then |n.children| + 1 else 0
  {
    hide Cut, Overflown, Items, ScalarText;
    CutIs(n);
    if IsContainer(n) {
      if n.children == [] {
        CutLeaf(n);
        EmptyFits(n);
      } else {
        CutFull(n);
        CutItems(n, 0, style, ftoa);
      }
    }
  }

  lemma EmptyFits(n: SNode)
    requires IsContainer(n) && n.children == []
    ensures Fits(n)
  {}

  lemma {:induction false} CutItems(n: SNode, k: nat, style: Style, ftoa: Ftoa)
    requires IsContainer(n) && k <= Kept(n)
    ensures k <= |n.children| && |Cut(n).children| == Kept(n) && IsContainer(Cut(n))
    ensures var t, u := Items(Cut(n), k, style, ftoa), Items(n, k, style, ftoa);
            |t| <= |u| &&
            (Kept(n) < |n.children| || (exists j :: k <= j < |n.children| && !Fits(n.children[j])) ==> |t| < |u|)
    decreases n, |n.children| - k
  {
    hide Cut, Overflown, Print, Fits;
    CutIs(n);
    if k < Kept(n) {
      CutChild(n, k);
      CutShorter(n.children[k], style, ftoa);
      CutItems(n, k + 1, style, ftoa);
    }
  }

  /** The text is the node's own exactly when the node fits. */
  lemma CutExact(n: SNode, style: Style, ftoa: Ftoa)
    ensures Print(Cut(n), style, ftoa) == Print(n, style, ftoa) <==> Fits(n)
  {
    hide Cut, Fits, Print;
    if Fits(n) {
      CutNothing(n);
    } else {
      CutShorter(n, style, ftoa);
    }
  }

  /** Nodes with a text below 2^31 bytes fit. */
  lemma {:induction false} ShortFits(n: SNode, style: Style, ftoa: Ftoa)
    requires |Print(n, style, ftoa)| < COUNT_END
    ensures Fits(n)
    decreases n
  {
    hide Items, ScalarText;
    if IsContainer(n) && n.children != [] {
      ItemsLength(n, 0, 0, style, ftoa);
      forall k | 0 <= k < |n.children|
        ensures Fits(n.children[k])
      {
        ItemsLength(n, 0, k, style, ftoa);
        ShortFits(n.children[k], style, ftoa);
      }
    }
  }

  /** Each child costs a byte and its own text. */
  lemma {:induction false} ItemsLength(n: SNode, k: nat, j: nat, style: Style, ftoa: Ftoa)
    requires IsContainer(n) && k <= j < |n.children|
    ensures |Items(n, k, style, ftoa)| >= |n.children| - k
    ensures |Items(n, k, style, ftoa)| > |Print(n.children[j], style, ftoa)|
    decreases |n.children| - k
  {
    hide Print;
    if k + 1 < |n.children| {
      ItemsLength(n, k + 1, if j > k then j else k + 1, style, ftoa);
    }
  }

  // ---- an object that does not fit ----

  /** 2^30 + 1 members, the first with the value [null] and the others null. */
  function WideObject(): SNode {
    SObject(seq(COUNT_END + 2, i => if i % 2 == 0 then SString([]) else if i == 1 then SArray([SNull]) else SNull))
  }

  /** Only the first member is printed, without an error. */
  lemma WideIsCut(ftoa: Ftoa)
    ensures var n := WideObject();
            Shaped(n) && KeysOk(n) && Finite(n, ftoa) && !Fits(n) &&
            Cut(n) == SObject([SString([]), SArray([SNull])])
  {
    hide Shaped, KeysOk, Finite, Fits, Cut, Overflown, Enters;
    var n := WideObject();
    WideIsClean(n, ftoa);
    WideEnters(n);
    EntersKept(n, 1);
    DoesNotFit(n);
    WideKept(n);
    CutIs(n);
    CutChild(n, 0);
    CutChild(n, 1);
    CutLeaf(n.children[0]);
    CutSingle();
    assert Cut(n).children == [SString([]), SArray([SNull])];
  }

  lemma WideIsClean(n: SNode, ftoa: Ftoa)
    requires n == WideObject()
    ensures Shaped(n) && KeysOk(n) && Finite(n, ftoa)
  {
    forall k | 0 <= k < |n.children|
      ensures Shaped(n.children[k]) && KeysOk(n.children[k]) && Finite(n.children[k], ftoa)
      ensures AtKey(n.children, k, true) ==> n.children[k].SString?
    {
      hide Shaped, KeysOk, Finite;
      ChildIsClean(n.children[k], ftoa);
    }
  }

  lemma ChildIsClean(n: SNode, ftoa: Ftoa)
    requires n == SString([]) || n == SNull || n == SArray([SNull])
    ensures Shaped(n) && KeysOk(n) && Finite(n, ftoa)
  {}

  lemma WideEnters(n: SNode)
    requires n == WideObject()
    ensures Enters(n, 1) && |n.children| == COUNT_END + 2
  {}

  lemma WideKept(n: SNode)
    requires IsContainer(n) && Overflown(n, |n.children|) && |n.children| == COUNT_END + 2
    ensures Kept(n) == 2
  {}

  lemma DoesNotFit(n: SNode)
    requires IsContainer(n) && Overflown(n, |n.children|)
    ensures !Fits(n)
  {
    hide Overflown;
  }

  lemma CutSingle()
    ensures Cut(SArray([SNull])) == SArray([SNull])
  {
    var n := SArray([SNull]);
    SmallEnd(n, 1);
    assert Cut(n).children == n.children;
  }
}
