/** An object node of the tree: its member array, and the multimap from names to positions that may
    be kept beside it. */
module ObjectNode {
  import opened Options
  import opened Json
  import Pointer

  type Index = multiset<(Bytes, nat)>

  /** The pairs (name of member i, i). */
  ghost function IndexOf(ms: seq<Member>): Index {
    if ms == [] then multiset{} else IndexOf(ms[..|ms| - 1]) + multiset{(ms[|ms| - 1].key, |ms| - 1)}
  }

  /** Exactly those, each of them once. */
  lemma {:induction false} IndexExact(ms: seq<Member>, e: (Bytes, nat))
    ensures IndexOf(ms)[e] == if e.1 < |ms| && ms[e.1].key == e.0 then 1 else 0
    decreases |ms|
  {
    if ms != [] {
      var rest := ms[..|ms| - 1];
      IndexExact(rest, e);
      if e.1 < |rest| {
        assert ms[e.1] == rest[e.1];
      }
    }
  }

  lemma IndexAll(ms: seq<Member>)
    ensures forall e: (Bytes, nat) {:trigger IndexOf(ms)[e]} ::
              IndexOf(ms)[e] == if e.1 < |ms| && ms[e.1].key == e.0 then 1 else 0
  {
    hide IndexOf;
    forall e: (Bytes, nat)
      ensures IndexOf(ms)[e] == if e.1 < |ms| && ms[e.1].key == e.0 then 1 else 0
    {
      IndexExact(ms, e);
    }
  }

  lemma IndexAppend(ms: seq<Member>, m: Member)
    ensures IndexOf(ms + [m]) == IndexOf(ms) + multiset{(m.key, |ms|)}
  {
    assert (ms + [m])[..|ms|] == ms;
  }

  lemma IndexEmpty()
    ensures IndexOf([]) == multiset{}
  {}

  /** The member at i replaced by the last one, which is dropped. */
  function SwapRemove(ms: seq<Member>, i: nat): (r: seq<Member>)
    requires i < |ms|
    ensures |r| == |ms| - 1
  {
    ms[i := ms[|ms| - 1]][..|ms| - 1]
  }

  /** Exactly one member is gone: the one at i. */
  lemma SwapRemoveDrops(ms: seq<Member>, i: nat)
    requires i < |ms|
    ensures multiset(SwapRemove(ms, i)) == multiset(ms) - multiset{ms[i]}
  {
    var n := |ms| - 1;
    assert ms == ms[..n] + [ms[n]];
    if i < n {
      var front := ms[..n];
      assert SwapRemove(ms, i) == front[i := ms[n]];
      assert front == front[..i] + ([front[i]] + front[i + 1..]);
      assert front[i := ms[n]] == front[..i] + ([ms[n]] + front[i + 1..]);
    } else {
      assert SwapRemove(ms, i) == ms[..n];
    }
  }

  /** The map after a removal: the entry of the removed member and that of the moved one are taken out,
      the moved one is put back at its new place. */
  function Swapped(map_: Index, key: Bytes, i: nat, tailKey: Bytes, tail: nat): Index {
    if i == tail then map_ - multiset{(key, i)}
    else map_ - multiset{(key, i)} - multiset{(tailKey, tail)} + multiset{(tailKey, i)}
  }

  lemma SwappedCount(map_: Index, key: Bytes, i: nat, tailKey: Bytes, tail: nat, e: (Bytes, nat))
    requires map_[(key, i)] == 1 && map_[(tailKey, tail)] == 1
    ensures Swapped(map_, key, i, tailKey, tail)[e] ==
            if i == tail then map_[e] - (if e == (key, i) then 1 else 0)
            else map_[e] - (if e == (key, i) then 1 else 0) - (if e == (tailKey, tail) then 1 else 0)
                 + (if e == (tailKey, i) then 1 else 0)
  {}

  lemma SwapRemoveAt(ms: seq<Member>, i: nat, j: nat)
    requires i < |ms| && j < |ms| - 1
    ensures SwapRemove(ms, i)[j] == if j == i then ms[|ms| - 1] else ms[j]
  {}

  lemma IndexSwappedAt(ms: seq<Member>, i: nat, e: (Bytes, nat))
    requires i < |ms|
    ensures IndexOf(SwapRemove(ms, i))[e] == Swapped(IndexOf(ms), ms[i].key, i, ms[|ms| - 1].key, |ms| - 1)[e]
  {
    hide IndexOf, SwapRemove, Swapped;
    var n := |ms| - 1;
    IndexExact(ms, e);
    IndexExact(SwapRemove(ms, i), e);
    IndexExact(ms, (ms[i].key, i));
    IndexExact(ms, (ms[n].key, n));
    SwappedCount(IndexOf(ms), ms[i].key, i, ms[n].key, n, e);
    if e.1 < n {
      SwapRemoveAt(ms, i, e.1);
    }
  }

  lemma IndexSwapped(ms: seq<Member>, i: nat)
    requires i < |ms|
    ensures IndexOf(SwapRemove(ms, i)) == Swapped(IndexOf(ms), ms[i].key, i, ms[|ms| - 1].key, |ms| - 1)
    ensures i < |ms| - 1 ==> (ms[|ms| - 1].key, |ms| - 1) in IndexOf(ms) - multiset{(ms[i].key, i)}
  {
    hide IndexOf, Swapped, SwapRemove;
    forall e: (Bytes, nat)
      ensures IndexOf(SwapRemove(ms, i))[e] == Swapped(IndexOf(ms), ms[i].key, i, ms[|ms| - 1].key, |ms| - 1)[e]
    {
      IndexSwappedAt(ms, i, e);
    }
    IndexExact(ms, (ms[|ms| - 1].key, |ms| - 1));
  }

  lemma SwappedIs(ms: seq<Member>, i: nat)
    requires i < |ms|
    ensures var map_, n := IndexOf(ms), |ms| - 1;
            Swapped(map_, ms[i].key, i, ms[n].key, n) ==
            if i == n then map_ - multiset{(ms[i].key, i)}
            else map_ - multiset{(ms[i].key, i)} - multiset{(ms[n].key, n)} + multiset{(ms[n].key, i)}
  {
    hide IndexOf;
  }

  ghost predicate Distinct(ms: seq<Member>) {
    forall i, j :: 0 <= i < j < |ms| ==> ms[i].key != ms[j].key
  }

  /** What a lookup answers: a member with the name, or the end when there is none. */
  ghost predicate Locates(ms: seq<Member>, name: Bytes, pos: nat) {
    if pos < |ms| then ms[pos].key == name else pos == |ms| && forall i :: 0 <= i < |ms| ==> ms[i].key != name
  }

  /** The first of them. */
  ghost predicate LocatesFirst(ms: seq<Member>, name: Bytes, pos: nat) {
    Locates(ms, name, pos) && forall i :: 0 <= i < pos && i < |ms| ==> ms[i].key != name
  }

  /** With distinct names every answer is the same, whether the map or the scan gave it. */
  lemma SameAnswer(ms: seq<Member>, name: Bytes, p: nat, q: nat)
    requires Distinct(ms) && Locates(ms, name, p) && Locates(ms, name, q)
    ensures p == q
  {}

  /** The first one is what a path step finds in the tree. */
  lemma {:induction false} FirstIsPointer(ms: seq<Member>, name: Bytes, pos: nat)
    requires LocatesFirst(ms, name, pos)
    ensures Pointer.FindMember(ms, name) == if pos < |ms| then Some(ms[pos].value) else None
    decreases |ms|
  {
    if ms != [] && ms[0].key != name {
      var rest := ms[1..];
      forall i | 0 <= i < |rest|
        ensures rest[i] == ms[i + 1]
      {}
      FirstIsPointer(rest, name, pos - 1);
    }
  }

  /** Among the entries with this key the one at `tail` is found, and replaced by one at `pos`. */
  method MoveEntry(before: Index, key: Bytes, tail: nat, pos: nat) returns (map_: Index)
    requires (key, tail) in before
    ensures map_ == before - multiset{(key, tail)} + multiset{(key, pos)}
  {
    map_ := before;
    var range := set e | e in map_ && e.0 == key;
    assert (key, tail) in range;
    while range != {}
      invariant (key, tail) in range && map_ == before
      decreases |range|
    {
      var i :| i in range;
      if i.1 == tail {
        map_ := map_ - multiset{(key, tail)};
        break;
      }
      range := range - {i};
    }
    map_ := map_ + multiset{(key, pos)};
  }

  /** The map once member m is gone: without its entry, and with the last member's under the new position. */
  method RemoveEntry(before: Index, name: Bytes, m: nat, tailKey: Bytes, tail: nat, ghost ms: seq<Member>)
    returns (map_: Index)
    requires before == IndexOf(ms) && m <= tail == |ms| - 1 && ms[m].key == name && ms[tail].key == tailKey
    ensures map_ == IndexOf(SwapRemove(ms, m))
  {
    hide IndexOf, SwapRemove, Swapped;
    IndexSwapped(ms, m);
    SwappedIs(ms, m);
    map_ := before - multiset{(name, m)};
    if m != tail {
      map_ := MoveEntry(map_, tailKey, tail, m);
    }
  }

  /** memmove of [last, end) to `first`. */
  method MoveDown(a: array<Member>, first: nat, last: nat, end: nat)
    requires first <= last <= end <= a.Length
    modifies a
    ensures a[..first + (end - last)] == old(a[..first] + a[last..end])
  {
    ghost var before := a[..];
    for i := 0 to end - last
      invariant forall k :: 0 <= k < first ==> a[k] == before[k]
      invariant forall k :: first <= k < first + i ==> a[k] == before[k + (last - first)]
      invariant forall k :: last + i <= k < end ==> a[k] == before[k]
    {
      a[first + i] := a[last + i];
    }
    assert a[..first + (end - last)] == before[..first] + before[last..end];
    assert before[..first] == old(a[..first]) && before[last..end] == old(a[last..end]);
  }

  const DEFAULT_CAPACITY := 16

  class Object {
    /** No storage at all is an array of length 0. */
    var children: array<Member>
    var size: nat
    var index: Option<Index>

    ghost predicate Valid()
      reads this, children
    {
      size <= children.Length && (index.Some? ==> children.Length > 0 && index.value == IndexOf(children[..size]))
    }

    ghost function Members(): seq<Member>
      reads this, children
      requires Valid()
    {
      children[..size]
    }

    constructor ()
      ensures Valid() && Members() == [] && index == None && fresh(children)
    {
      children, size, index := new Member[0], 0, None;
    }

    /** Room for `capacity` members; those there are keep their places. */
    method Grow(capacity: nat)
      requires Valid() && capacity >= children.Length
      modifies this
      ensures Valid() && Members() == old(Members()) && index == old(index)
      ensures children.Length == capacity && fresh(children) && size == old(size)
    {
      var storage := new Member[capacity](_ => Member([], Null));
      for i := 0 to size
        invariant forall k :: 0 <= k < i ==> storage[k] == children[k]
        modifies storage
      {
        storage[i] := children[i];
      }
      assert storage[..size] == children[..size];
      children := storage;
    }

    /** Index every member. */
    method CreateMap()
      requires Valid()
      modifies this
      ensures Valid() && Members() == old(Members()) && index.Some?
      ensures children.Length == if old(children.Length) == 0 then DEFAULT_CAPACITY else old(children.Length)
    {
      if children.Length == 0 {
        Grow(DEFAULT_CAPACITY);
      }
      if index.Some? {
        return;
      }
      var map_: Index := multiset{};
      IndexEmpty();
      assert children[..0] == [];
      for i := 0 to size
        invariant map_ == IndexOf(children[..i])
        modifies {}
      {
        IndexAppend(children[..i], children[i]);
        assert children[..i + 1] == children[..i] + [children[i]];
        map_ := map_ + multiset{(children[i].key, i)};
      }
      index := Some(map_);
    }

    method DestroyMap()
      requires Valid()
      modifies this`index
      ensures Valid() && Members() == old(Members()) && index == None
    {
      index := None;
    }

    /** Some entry of the map with this name, whichever the map gives. */
    method FindFromMap(name: Bytes) returns (pos: nat)
      requires Valid() && index.Some?
      ensures pos <= size && Locates(Members(), name, pos)
    {
      hide IndexOf;
      IndexAll(children[..size]);
      var hits := set e | e in index.value && e.0 == name;
      if hits == {} {
        pos := size;
        forall i | 0 <= i < size
          ensures children[..size][i].key != name
        {
          assert IndexOf(children[..size])[(children[..size][i].key, i)] == 1;
          assert (children[i].key, i) !in hits;
        }
      } else {
        var it :| it in hits;
        assert IndexOf(children[..size])[it] > 0;
        pos := it.1;
      }
    }

    /** A member with the name: the first one when there is no map. */
    method FindMember(name: Bytes) returns (pos: nat)
      requires Valid()
      ensures pos <= size && Locates(Members(), name, pos)
      ensures index == None ==> LocatesFirst(Members(), name, pos)
    {
      if index.Some? {
        pos := FindFromMap(name);
        return;
      }
      pos := 0;
      while pos < size
        invariant 0 <= pos <= size && forall i :: 0 <= i < pos ==> children[..size][i].key != name
      {
        if children[pos].key == name {
          break;
        }
        pos := pos + 1;
      }
    }

    /** Sixteen members at first, then half as many again. */
    static function RoomFor(capacity: nat, size: nat): nat {
      if size <= capacity then capacity
      else if capacity == 0 then DEFAULT_CAPACITY
      else capacity + (capacity + 1) / 2
    }

    /** The new member comes last, even when the name is there already. */
    method AddMember(name: Bytes, value: Tree) returns (pos: nat)
      requires Valid()
      modifies this, children
      ensures Valid() && Members() == old(Members()) + [Member(name, value)] && pos == old(size)
      ensures index.Some? == old(index.Some?)
      ensures children == old(children) || fresh(children)
      ensures children.Length == RoomFor(old(children.Length), size)
    {
      hide IndexOf;
      ghost var before := Members();
      var count := size;
      if count >= children.Length {
        Grow(if children.Length == 0 then DEFAULT_CAPACITY else children.Length + (children.Length + 1) / 2);
      }
      children[count] := Member(name, value);
      size := size + 1;
      assert children[..count] == before;
      assert children[..size] == before + [Member(name, value)];
      IndexAppend(before, Member(name, value));
      if index.Some? {
        index := Some(index.value + multiset{(name, count)});
      }
      pos := count;
    }

    /** Drops one member with the name; the last member takes its place. */
    method RemoveMember(name: Bytes) returns (found: bool, ghost pos: nat)
      requires Valid()
      modifies this, children
      ensures Valid() && children == old(children) && index.Some? == old(index.Some?)
      ensures Locates(old(Members()), name, pos) && (found <==> pos < old(size))
      ensures old(index) == None ==> LocatesFirst(old(Members()), name, pos)
      ensures Members() == if found then SwapRemove(old(Members()), pos) else old(Members())
    {
      hide IndexOf, SwapRemove;
      ghost var before := Members();
      var m := FindMember(name);
      pos := m;
      if m == size {
        return false, pos;
      }
      if index.Some? {
        var map_ := RemoveEntry(index.value, name, m, children[size - 1].key, size - 1, before);
        index := Some(map_);
      }
      DropAt(m);
      found := true;
    }

    /** The last member moves into place m. */
    method DropAt(m: nat)
      requires m < size <= children.Length
      modifies this`size, children
      ensures size == old(size) - 1 && children[..size] == SwapRemove(old(children[..size]), m)
    {
      if m != size - 1 {
        children[m] := children[size - 1];
      }
      size := size - 1;
    }

    /** Removes members first up to last and closes the gap; the map is dropped. */
    method EraseMember(first: nat, last: nat) returns (pos: nat)
      requires Valid() && first <= last <= size
      modifies this, children
      ensures Valid() && index == None
      ensures Members() == old(Members())[..first] + old(Members())[last..] && pos == first
      ensures children.Length == if last - first == old(size) then 0 else old(children.Length)
    {
      ghost var before := Members();
      DestroyMap();
      if last - first >= size {
        children := new Member[0];
        size := 0;
        return 0;
      }
      MoveDown(children, first, last, size);
      size := size - (last - first);
      assert children[..size] == before[..first] + before[last..];
      pos := first;
    }
  }
}
