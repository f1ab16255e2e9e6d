/** The flat node stack the parser builds a document on.  An open container is a slot that remembers the
    slot of the container around it; closing it moves the slots above it into its own children. */
module Handler {
  import opened Json

  /** A document node; strings are stretches of the text buffer. */
  datatype Node =
    | NullNode
    | BoolNode(b: bool)
    | UintNode(u: nat)
    | IntNode(i: int)
    | DoubleNode(bits: nat)
    | StringNode(off: nat, len: nat)
    | ArrayNode(children: seq<Node>)
    | ObjectNode(children: seq<Node>)
    | OpenNode(ofs: nat)

  /** The node is that string. */
  predicate Spells(buf: Bytes, n: Node, s: Bytes) {
    n.StringNode? && n.off + n.len <= |buf| && buf[n.off..n.off + n.len] == s
  }

  /** The node stands for the tree; all its strings lie in buf. */
  predicate Denotes(buf: Bytes, n: Node, t: Tree)
    decreases n
  {
    match n
    case NullNode => t == Null
    case BoolNode(b) => t == Bool(b)
    case UintNode(u) => t == Uint(u)
    case IntNode(i) => t == Int(i)
    case DoubleNode(bits) => t == Double(bits)
    case StringNode(_, _) => t.String? && Spells(buf, n, t.s)
    case ArrayNode(children) =>
      t.Array? && |children| == |t.items| &&
      forall k :: 0 <= k < |children| ==> Denotes(buf, children[k], t.items[k])
    case ObjectNode(children) =>
      t.Object? && |children| == 2 * |t.members| &&
      forall k :: 0 <= k < |t.members| ==>
        Spells(buf, children[2 * k], t.members[k].key) && Denotes(buf, children[2 * k + 1], t.members[k].value)
    case OpenNode(_) => false
  }

  lemma SpellsMore(b: Bytes, c: Bytes, n: Node, s: Bytes)
    requires Spells(b, n, s) && b <= c
    ensures Spells(c, n, s)
  {
    assert c[..|b|] == b;
    assert c[n.off..n.off + n.len] == c[..|b|][n.off..n.off + n.len];
  }

  /** What lies behind the strings does not matter. */
  lemma {:induction false} DenotesMore(b: Bytes, c: Bytes, n: Node, t: Tree)
    requires Denotes(b, n, t) && b <= c
    ensures Denotes(c, n, t)
    decreases n
  {
    match n
    case StringNode(_, _) => SpellsMore(b, c, n, t.s);
    case ArrayNode(children) =>
      forall k | 0 <= k < |children|
        ensures Denotes(c, children[k], t.items[k])
      {
        DenotesMore(b, c, children[k], t.items[k]);
      }
    case ObjectNode(children) =>
      forall k | 0 <= k < |t.members|
        ensures Spells(c, children[2 * k], t.members[k].key) && Denotes(c, children[2 * k + 1], t.members[k].value)
      {
        SpellsMore(b, c, children[2 * k], t.members[k].key);
        DenotesMore(b, c, children[2 * k + 1], t.members[k].value);
      }
    case _ =>
  }

  // ---- containers under construction ----

  /** A container whose bracket is still open, with the trees read so far; AtValue has read a key and waits
      for its value. */
  datatype Frame =
    | InArray(items: seq<Tree>)
    | InObject(members: seq<Member>)
    | AtValue(members: seq<Member>, key: Bytes)

  predicate Items(buf: Bytes, nodes: seq<Node>, items: seq<Tree>) {
    |nodes| == |items| && forall k :: 0 <= k < |items| ==> Denotes(buf, nodes[k], items[k])
  }

  predicate Pairs(buf: Bytes, nodes: seq<Node>, ms: seq<Member>) {
    |nodes| == 2 * |ms| &&
    forall k :: 0 <= k < |ms| ==> Spells(buf, nodes[2 * k], ms[k].key) && Denotes(buf, nodes[2 * k + 1], ms[k].value)
  }

  /** The slots above an open container hold what has been read of it. */
  predicate FrameNodes(buf: Bytes, nodes: seq<Node>, f: Frame) {
    match f
    case InArray(items) => Items(buf, nodes, items)
    case InObject(ms) => Pairs(buf, nodes, ms)
    case AtValue(ms, key) =>
      |nodes| == 2 * |ms| + 1 && Pairs(buf, nodes[..2 * |ms|], ms) && Spells(buf, nodes[2 * |ms|], key)
  }

  lemma ItemsMore(b: Bytes, c: Bytes, nodes: seq<Node>, items: seq<Tree>)
    requires Items(b, nodes, items) && b <= c
    ensures Items(c, nodes, items)
  {
    hide Denotes;
    forall k | 0 <= k < |items|
      ensures Denotes(c, nodes[k], items[k])
    {
      DenotesMore(b, c, nodes[k], items[k]);
    }
  }

  lemma PairsMore(b: Bytes, c: Bytes, nodes: seq<Node>, ms: seq<Member>)
    requires Pairs(b, nodes, ms) && b <= c
    ensures Pairs(c, nodes, ms)
  {
    hide Denotes, Spells;
    forall k | 0 <= k < |ms|
      ensures Spells(c, nodes[2 * k], ms[k].key) && Denotes(c, nodes[2 * k + 1], ms[k].value)
    {
      SpellsMore(b, c, nodes[2 * k], ms[k].key);
      DenotesMore(b, c, nodes[2 * k + 1], ms[k].value);
    }
  }

  lemma FrameNodesMore(b: Bytes, c: Bytes, nodes: seq<Node>, f: Frame)
    requires FrameNodes(b, nodes, f) && b <= c
    ensures FrameNodes(c, nodes, f)
  {
    hide Items, Pairs, Spells;
    match f
    case InArray(items) => ItemsMore(b, c, nodes, items);
    case InObject(ms) => PairsMore(b, c, nodes, ms);
    case AtValue(ms, key) =>
      PairsMore(b, c, nodes[..2 * |ms|], ms);
      SpellsMore(b, c, nodes[2 * |ms|], key);
  }

  function Top(fs: seq<Frame>): Frame
    requires fs != []
  {
    fs[|fs| - 1]
  }

  function Below(fs: seq<Frame>): seq<Frame>
    requires fs != []
  {
    fs[..|fs| - 1]
  }

  /** The first np slots are exactly the open containers fs, linked through their offsets; `parent` is the
      innermost. */
  predicate Stacked(buf: Bytes, st: seq<Node>, np: nat, parent: nat, fs: seq<Frame>)
    decreases |fs|
  {
    np <= |st| &&
    if fs == [] then np == 0 && parent == 0
    else
      parent < np && st[parent].OpenNode? && FrameNodes(buf, st[parent + 1..np], Top(fs)) &&
      Stacked(buf, st, parent, st[parent].ofs, Below(fs))
  }

  lemma {:induction false} StackedMore(b: Bytes, c: Bytes, st: seq<Node>, np: nat, parent: nat, fs: seq<Frame>)
    requires Stacked(b, st, np, parent, fs) && b <= c
    ensures Stacked(c, st, np, parent, fs)
    decreases |fs|
  {
    hide FrameNodes;
    if fs != [] {
      FrameNodesMore(b, c, st[parent + 1..np], Top(fs));
      StackedMore(b, c, st, parent, st[parent].ofs, Below(fs));
    }
  }

  /** Slots from np on do not matter. */
  lemma {:induction false} StackedPrefix(buf: Bytes, st: seq<Node>, su: seq<Node>, np: nat, parent: nat, fs: seq<Frame>)
    requires Stacked(buf, st, np, parent, fs) && np <= |su| && st[..np] == su[..np]
    ensures Stacked(buf, su, np, parent, fs)
    decreases |fs|
  {
    hide FrameNodes;
    if fs != [] {
      assert st[parent] == st[..np][parent] == su[..np][parent] == su[parent];
      assert st[parent + 1..np] == st[..np][parent + 1..] == su[..np][parent + 1..] == su[parent + 1..np];
      assert st[..parent] == st[..np][..parent] == su[..np][..parent] == su[..parent];
      StackedPrefix(buf, st, su, parent, st[parent].ofs, Below(fs));
    }
  }

  /** A container frame that has got one more value. */
  function Push(fs: seq<Frame>, t: Tree): (r: seq<Frame>)
    requires fs != [] && !Top(fs).InObject?
    ensures |r| == |fs| && Below(r) == Below(fs)
  {
    var f := match Top(fs)
      case InArray(items) => InArray(items + [t])
      case AtValue(ms, key) => InObject(ms + [Member(key, t)]);
    Below(fs) + [f]
  }

  function PushKey(fs: seq<Frame>, key: Bytes): (r: seq<Frame>)
    requires fs != [] && Top(fs).InObject?
    ensures |r| == |fs| && Below(r) == Below(fs)
  {
    Below(fs) + [AtValue(Top(fs).members, key)]
  }

  /** A finished value lies on top of the open containers. */
  predicate Completed(buf: Bytes, st: seq<Node>, np: nat, parent: nat, fs: seq<Frame>, t: Tree) {
    0 < np <= |st| && Denotes(buf, st[np - 1], t) && Stacked(buf, st, np - 1, parent, fs)
  }

  lemma FrameTakes(buf: Bytes, nodes: seq<Node>, x: Node, f: Frame, t: Tree)
    requires FrameNodes(buf, nodes, f) && !f.InObject? && Denotes(buf, x, t)
    ensures FrameNodes(buf, nodes + [x], Top(Push([f], t)))
  {
    hide Denotes, Spells;
    match f
    case InArray(items) =>
      assert Top(Push([f], t)) == InArray(items + [t]);
    case AtValue(ms, key) =>
      var all := nodes + [x];
      assert Top(Push([f], t)) == InObject(ms + [Member(key, t)]);
      forall k | 0 <= k < |ms| + 1
        ensures Spells(buf, all[2 * k], (ms + [Member(key, t)])[k].key)
        ensures Denotes(buf, all[2 * k + 1], (ms + [Member(key, t)])[k].value)
      {
        if k < |ms| {
          var old' := nodes[..2 * |ms|];
          assert all[2 * k] == old'[2 * k] && all[2 * k + 1] == old'[2 * k + 1];
        }
      }
  }

  /** The finished value becomes part of the innermost container. */
  lemma CompletedPush(buf: Bytes, st: seq<Node>, np: nat, parent: nat, fs: seq<Frame>, t: Tree)
    requires Completed(buf, st, np, parent, fs, t) && fs != [] && !Top(fs).InObject?
    ensures Stacked(buf, st, np, parent, Push(fs, t))
  {
    hide FrameNodes, Denotes;
    FrameTakes(buf, st[parent + 1..np - 1], st[np - 1], Top(fs), t);
    assert st[parent + 1..np] == st[parent + 1..np - 1] + [st[np - 1]];
    assert Top(Push(fs, t)) == Top(Push([Top(fs)], t));
  }

  /** A key becomes part of the innermost object. */
  lemma KeyPush(buf: Bytes, st: seq<Node>, np: nat, parent: nat, fs: seq<Frame>, key: Bytes)
    requires 0 < np <= |st| && Spells(buf, st[np - 1], key) && Stacked(buf, st, np - 1, parent, fs)
    requires fs != [] && Top(fs).InObject?
    ensures Stacked(buf, st, np, parent, PushKey(fs, key))
  {
    hide Denotes, Spells;
    var ms := Top(fs).members;
    var nodes := st[parent + 1..np];
    assert nodes[..2 * |ms|] == st[parent + 1..np - 1];
    assert nodes[2 * |ms|] == st[np - 1];
  }

  class SAXHandler {
    var st: seq<Node>
    var np: nat
    var parent: nat

    /** Room for half as many nodes as the text has bytes. */
    constructor (len: nat)
      ensures np == 0 && parent == 0 && |st| == if len / 2 + 2 < 16 then 16 else len / 2 + 2
      ensures Stacked([], st, np, parent, [])
    {
      var cap := len / 2 + 2;
      if cap < 16 {
        cap := 16;
      }
      st := seq(cap, _ => NullNode);
      np, parent := 0, 0;
    }

    /** A new slot; the capacity doubles when there is none. */
    method AddNode()
      requires np <= |st| && |st| > 0
      modifies this
      ensures np == old(np) + 1 <= |st| && parent == old(parent) && st[..old(np)] == old(st)[..old(np)]
      ensures |st| == if old(np) == |old(st)| then 2 * |old(st)| else |old(st)|
    {
      if np == |st| {
        st := st + seq(|st|, _ => NullNode);
      }
      np := np + 1;
    }

    /** A finished scalar. */
    method Scalar(x: Node, ghost buf: Bytes, ghost fs: seq<Frame>, ghost t: Tree)
      requires |st| > 0 && Stacked(buf, st, np, parent, fs) && Denotes(buf, x, t)
      modifies this
      ensures |st| > 0 && Completed(buf, st, np, parent, fs, t)
    {
      hide Stacked, Denotes;
      StackedSize(buf, st, np, parent, fs);
      ghost var before, n := st, np;
      AddNode();
      st := st[np - 1 := x];
      assert st[..n] == before[..n];
      StackedPrefix(buf, before, st, n, parent, fs);
    }

    method Key(off: nat, len: nat, ghost buf: Bytes, ghost fs: seq<Frame>, ghost key: Bytes)
      requires |st| > 0 && Stacked(buf, st, np, parent, fs) && Spells(buf, StringNode(off, len), key)
      requires fs != [] && Top(fs).InObject?
      modifies this
      ensures |st| > 0 && Stacked(buf, st, np, parent, PushKey(fs, key))
    {
      hide Stacked, Spells;
      StackedSize(buf, st, np, parent, fs);
      ghost var before, n := st, np;
      AddNode();
      st := st[np - 1 := StringNode(off, len)];
      assert st[..n] == before[..n];
      StackedPrefix(buf, before, st, n, parent, fs);
      KeyPush(buf, st, np, parent, fs, key);
    }

    /** Opens an array or an object. */
    method Start(ghost buf: Bytes, ghost fs: seq<Frame>, ghost f: Frame)
      requires |st| > 0 && Stacked(buf, st, np, parent, fs) && (f == InArray([]) || f == InObject([]))
      modifies this
      ensures |st| > 0 && Stacked(buf, st, np, parent, fs + [f])
    {
      StackedSize(buf, st, np, parent, fs);
      ghost var before, n, p := st, np, parent;
      AddNode();
      st := st[np - 1 := OpenNode(parent)];
      parent := np - 1;
      assert st[..n] == before[..n];
      StackedPrefix(buf, before, st, n, p, fs);
      assert st[parent + 1..np] == [];
      assert Below(fs + [f]) == fs;
    }

    /** Closes the innermost array, which has `count` elements. */
    method EndArray(count: nat, ghost buf: Bytes, ghost fs: seq<Frame>)
      requires |st| > 0 && Stacked(buf, st, np, parent, fs) && fs != [] && Top(fs).InArray?
      requires count == |Top(fs).items|
      modifies this
      ensures |st| > 0 && Completed(buf, st, np, parent, Below(fs), Array(Top(fs).items))
    {
      var oldParent := st[parent].ofs;
      ghost var before := st;
      var children := st[parent + 1..parent + 1 + count];
      st := st[parent := ArrayNode(children)];
      np := parent + 1;
      hide Stacked;
      assert st[..np - 1] == before[..np - 1];
      StackedPrefix(buf, before, st, np - 1, oldParent, Below(fs));
      parent := oldParent;
    }

    /** Closes the innermost object, which has `pairs` members. */
    method EndObject(pairs: nat, ghost buf: Bytes, ghost fs: seq<Frame>)
      requires |st| > 0 && Stacked(buf, st, np, parent, fs) && fs != [] && Top(fs).InObject?
      requires pairs == |Top(fs).members|
      modifies this
      ensures |st| > 0 && Completed(buf, st, np, parent, Below(fs), Object(Top(fs).members))
    {
      var oldParent := st[parent].ofs;
      ghost var before := st;
      var children := st[parent + 1..parent + 1 + 2 * pairs];
      st := st[parent := ObjectNode(children)];
      np := parent + 1;
      hide Stacked, Spells;
      assert st[..np - 1] == before[..np - 1];
      StackedPrefix(buf, before, st, np - 1, oldParent, Below(fs));
      parent := oldParent;
    }
  }

  lemma StackedSize(buf: Bytes, st: seq<Node>, np: nat, parent: nat, fs: seq<Frame>)
    requires Stacked(buf, st, np, parent, fs)
    ensures np <= |st|
  {}
}
