/** Looking up a value by a path in a document tree, and the same lookup in a syntax tree. */
module Pointer {
  import opened Options
  import opened Json

  /** One step of a path. */
  datatype Step = Key(name: Bytes) | Index(i: Int32)

  /** The first member with the name. */
  function FindMember(ms: seq<Member>, name: Bytes): Option<Tree> {
    if ms == [] then None else if ms[0].key == name then Some(ms[0].value) else FindMember(ms[1..], name)
  }

  function AtPointer(t: Tree, path: seq<Step>): Option<Tree>
    decreases |path|
  {
    if path == [] then Some(t)
    else
      match path[0]
      case Key(name) =>
        if !t.Object? then None
        else
          (match FindMember(t.members, name)
           case None => None
           case Some(x) => AtPointer(x, path[1..]))
      case Index(i) =>
        if t.Array? && 0 <= i < |t.items| then AtPointer(t.items[i], path[1..]) else None
  }

  function FindPair(ps: Pairs, name: Bytes): Option<Value>
    requires ValidPairs(ps)
  {
    if PiecesMeaning(ps.key) == name then Some(ps.v)
    else match ps.rest case NoPair => None case ThenPair(more) => FindPair(more, name)
  }

  function FindElement(es: Elements, i: nat): Option<Value> {
    if i == 0 then Some(es.v) else match es.rest case NoElement => None case Then(more) => FindElement(more, i - 1)
  }

  /** One step down the syntax tree. */
  function Child(v: Value, step: Step): Option<Value>
    requires Valid(v)
  {
    match step
    case Key(name) => if v.ObjectValue? then FindPair(v.pairs, name) else None
    case Index(i) => if v.ArrayValue? && i >= 0 then FindElement(v.elements, i) else None
  }

  lemma {:induction false} PairMeaning(ps: Pairs, name: Bytes, conv: Conversion)
    requires ValidPairs(ps) && PairsMeaning(ps, conv).Some?
    ensures match FindPair(ps, name)
            case None => FindMember(PairsMeaning(ps, conv).value, name) == None
            case Some(u) =>
              Valid(u) && Meaning(u, conv).Some? && Meaning(u, conv) == FindMember(PairsMeaning(ps, conv).value, name)
    decreases ps
  {
    hide PiecesMeaning, Meaning, Valid, ValidPieces, IsBlank;
    var ms := PairsMeaning(ps, conv).value;
    if PiecesMeaning(ps.key) != name && ps.rest.ThenPair? {
      PairMeaning(ps.rest.more, name, conv);
      assert ms[1..] == PairsMeaning(ps.rest.more, conv).value;
    }
  }

  lemma {:induction false} ElementMeaning(es: Elements, i: nat, conv: Conversion)
    requires ValidElements(es) && ElementsMeaning(es, conv).Some?
    ensures var ts := ElementsMeaning(es, conv).value;
            match FindElement(es, i)
            case None => i >= |ts|
            case Some(u) => i < |ts| && Valid(u) && Meaning(u, conv) == Some(ts[i])
    decreases es
  {
    hide Meaning, Valid, IsBlank;
    if i > 0 && es.rest.Then? {
      ElementMeaning(es.rest.more, i - 1, conv);
    }
  }

  /** A step down the syntax tree is the step down the document tree it stands for. */
  lemma ChildMeaning(v: Value, step: Step, conv: Conversion)
    requires Valid(v) && Meaning(v, conv).Some?
    ensures match Child(v, step)
            case None => AtPointer(Meaning(v, conv).value, [step]) == None
            case Some(u) =>
              Valid(u) && Meaning(u, conv).Some? && Meaning(u, conv) == AtPointer(Meaning(v, conv).value, [step])
    ensures Meaning(v, conv).value.Array? <==> v.EmptyArray? || v.ArrayValue?
    ensures Meaning(v, conv).value.Object? <==> v.EmptyObject? || v.ObjectValue?
  {
    hide ElementsMeaning, PairsMeaning, PiecesMeaning, FindMember, FindPair, FindElement;
    var t := Meaning(v, conv).value;
    match step
    case Key(name) =>
      if v.ObjectValue? {
        PairMeaning(v.pairs, name, conv);
        PointerKey(t, name);
      } else if v.EmptyObject? {
        NoMember(name);
      }
    case Index(i) =>
      if v.ArrayValue? && i >= 0 {
        ElementMeaning(v.elements, i, conv);
      }
  }

  lemma PointerKey(t: Tree, name: Bytes)
    requires t.Object?
    ensures AtPointer(t, [Key(name)]) == FindMember(t.members, name)
  {
    hide FindMember;
  }

  lemma NoMember(name: Bytes)
    ensures FindMember([], name) == None
  {}

  /** A path is followed one step at a time. */
  lemma PointerStep(t: Tree, path: seq<Step>)
    requires path != []
    ensures AtPointer(t, path) ==
            match AtPointer(t, [path[0]]) case None => None case Some(x) => AtPointer(x, path[1..])
  {
    hide FindMember;
  }
}
