/** The bump allocator behind every document: chunks from a base allocator, blocks cut off the head
    chunk, the last block growing in place. */
module MemoryPool {
  import opened Options
  import opened Powers
  import opened Json

  /** SONIC_ALIGN */
  function Align(x: nat): (a: nat)
    ensures x <= a < x + 8 && a % 8 == 0
  {
    (x + 7) / 8 * 8
  }

  const HEADER: nat := 24

  /** A chunk header at `base` and its buffer; `size` bytes of the buffer are handed out. */
  datatype Chunk = Chunk(base: nat, capacity: nat, size: nat) {
    function Buffer(): nat { base + HEADER }
    function End(): nat { base + HEADER + capacity }
    function Top(): nat { base + HEADER + size }
  }

  /** Memory handed out: bytes start up to start + len. */
  datatype Block = Block(start: nat, len: nat)

  predicate ChunkOk(c: Chunk, limit: nat) {
    c.base % 8 == 0 && c.size % 8 == 0 && c.size <= c.capacity && c.End() <= limit
  }

  predicate Apart(c: Chunk, d: Chunk) { c.End() <= d.base || d.End() <= c.base }

  predicate Inside(b: Block, c: Chunk) { c.Buffer() <= b.start && b.start + b.len <= c.Top() }

  predicate Disjoint(a: Block, b: Block) { a.start + a.len <= b.start || b.start + b.len <= a.start }

  /** What every run keeps: chunks apart from each other; blocks aligned, inside the handed-out part of
      some chunk, and pairwise disjoint. */
  ghost predicate Layout(chunks: seq<Chunk>, blocks: seq<Block>, limit: nat) {
    ChunkList(chunks, limit) && Placed(chunks, blocks) && Separate(blocks)
  }

  ghost predicate ChunkList(chunks: seq<Chunk>, limit: nat) {
    && chunks != []
    && (forall i :: 0 <= i < |chunks| ==> ChunkOk(chunks[i], limit))
    && (forall i, j :: 0 <= i < j < |chunks| ==> Apart(chunks[i], chunks[j]))
  }

  ghost predicate Placed(chunks: seq<Chunk>, blocks: seq<Block>) {
    forall k :: 0 <= k < |blocks| ==> BlockOk(chunks, blocks[k])
  }

  ghost predicate Separate(blocks: seq<Block>) {
    forall k, l :: 0 <= k < l < |blocks| ==> Disjoint(blocks[k], blocks[l])
  }

  ghost predicate BlockOk(chunks: seq<Chunk>, b: Block) {
    b.len > 0 && b.start % 8 == 0 && exists i :: 0 <= i < |chunks| && Inside(b, chunks[i])
  }

  /** The base allocator would give this address to a chunk of this capacity. */
  ghost predicate Offered(chunks: seq<Chunk>, base: nat, capacity: nat, limit: nat) {
    var c := Chunk(base, capacity, 0);
    ChunkOk(c, limit) && forall i :: 0 <= i < |chunks| ==> Apart(c, chunks[i])
  }

  lemma AddChunkKeeps(chunks: seq<Chunk>, blocks: seq<Block>, limit: nat, base: nat, capacity: nat)
    requires Layout(chunks, blocks, limit) && Offered(chunks, base, capacity, limit)
    ensures Layout([Chunk(base, capacity, 0)] + chunks, blocks, limit)
  {
    var more := [Chunk(base, capacity, 0)] + chunks;
    forall i, j | 0 <= i < j < |more|
      ensures Apart(more[i], more[j])
    {
      assert more[j] == chunks[j - 1];
    }
    forall k | 0 <= k < |blocks|
      ensures BlockOk(more, blocks[k])
    {
      var i :| 0 <= i < |chunks| && Inside(blocks[k], chunks[i]);
      assert more[i + 1] == chunks[i];
    }
  }

  /** A block and the unused part of the head chunk do not meet. */
  lemma HeadIsFree(chunks: seq<Chunk>, blocks: seq<Block>, limit: nat, k: nat)
    requires Layout(chunks, blocks, limit) && k < |blocks|
    ensures blocks[k].start + blocks[k].len <= chunks[0].Top() || chunks[0].End() <= blocks[k].start
  {
    assert BlockOk(chunks, blocks[k]);
    var i :| 0 <= i < |chunks| && Inside(blocks[k], chunks[i]);
    if i > 0 {
      assert Apart(chunks[0], chunks[i]);
      assert ChunkOk(chunks[i], limit);
    }
  }

  /** The head chunk with n more bytes handed out. */
  function Bumped(chunks: seq<Chunk>, n: nat): (r: seq<Chunk>)
    requires chunks != []
    ensures |r| == |chunks|
  {
    chunks[0 := chunks[0].(size := chunks[0].size + n)]
  }

  lemma BumpedChunks(chunks: seq<Chunk>, limit: nat, n: nat)
    requires ChunkList(chunks, limit) && n % 8 == 0 && chunks[0].size + n <= chunks[0].capacity
    ensures ChunkList(Bumped(chunks, n), limit)
  {
    var more := Bumped(chunks, n);
    assert ChunkOk(chunks[0], limit);
    forall i, j | 0 <= i < j < |more|
      ensures Apart(more[i], more[j])
    {
      assert Apart(chunks[i], chunks[j]);
    }
  }

  lemma BumpedBlock(chunks: seq<Chunk>, n: nat, b: Block)
    requires chunks != [] && BlockOk(chunks, b)
    ensures BlockOk(Bumped(chunks, n), b)
  {
    var i :| 0 <= i < |chunks| && Inside(b, chunks[i]);
    assert Inside(b, Bumped(chunks, n)[i]);
  }

  /** A block that ends where the handed-out part of the head chunk does. */
  lemma HeadBlock(chunks: seq<Chunk>, limit: nat, n: nat, b: Block)
    requires ChunkList(chunks, limit) && b.len > 0 && b.start % 8 == 0
    requires chunks[0].Buffer() <= b.start && b.start + b.len == chunks[0].Top() + n
    ensures BlockOk(Bumped(chunks, n), b)
  {
    assert Inside(b, Bumped(chunks, n)[0]);
  }

  lemma BumpKeeps(chunks: seq<Chunk>, blocks: seq<Block>, limit: nat, n: nat)
    requires Layout(chunks, blocks, limit) && n > 0 && n % 8 == 0 && chunks[0].size + n <= chunks[0].capacity
    ensures Layout(Bumped(chunks, n), blocks + [Block(chunks[0].Top(), n)], limit)
  {
    hide BlockOk, Apart;
    var b := Block(chunks[0].Top(), n);
    assert ChunkOk(chunks[0], limit);
    BumpedChunks(chunks, limit, n);
    HeadBlock(chunks, limit, n, b);
    forall k | 0 <= k < |blocks|
      ensures BlockOk(Bumped(chunks, n), blocks[k]) && Disjoint(blocks[k], b)
    {
      BumpedBlock(chunks, n, blocks[k]);
      HeadIsFree(chunks, blocks, limit, k);
    }
    hide Bumped;
  }

  lemma GrowKeeps(chunks: seq<Chunk>, blocks: seq<Block>, limit: nat, k: nat, n: nat)
    requires Layout(chunks, blocks, limit) && k < |blocks| && n % 8 == 0
    requires blocks[k].start + blocks[k].len == chunks[0].Top() && chunks[0].Buffer() <= blocks[k].start
    requires chunks[0].size + n <= chunks[0].capacity
    ensures Layout(Bumped(chunks, n), blocks[k := Block(blocks[k].start, blocks[k].len + n)], limit)
  {
    hide BlockOk, Apart;
    var b := Block(blocks[k].start, blocks[k].len + n);
    assert BlockOk(chunks, blocks[k]);
    BlockSize(chunks, blocks[k]);
    BumpedChunks(chunks, limit, n);
    HeadBlock(chunks, limit, n, b);
    forall l | 0 <= l < |blocks| && l != k
      ensures BlockOk(Bumped(chunks, n), blocks[l]) && Disjoint(blocks[l], b)
    {
      BumpedBlock(chunks, n, blocks[l]);
      HeadIsFree(chunks, blocks, limit, l);
      assert Disjoint(blocks[if l < k then l else k], blocks[if l < k then k else l]);
    }
    hide Bumped;
  }

  lemma BlockSize(chunks: seq<Chunk>, b: Block)
    requires BlockOk(chunks, b)
    ensures b.len > 0 && b.start % 8 == 0
  {}

  // ---- chunk sizes ----

  const MAX_CHUNK: nat := 65536

  /** 1 << (64 - clz(n)): the smallest power of two above n. */
  function PowerAbove(n: nat): (p: nat)
    ensures p > n && (n > 0 ==> p <= 2 * n)
  {
    if n == 0 then 1 else 2 * PowerAbove(n / 2)
  }

  ghost predicate IsPowerOfTwo(p: nat) { exists k: nat :: p == Pow(2, k) }

  /** It is one, and its half is not above n. */
  lemma {:induction false} PowerIsLeast(n: nat)
    ensures IsPowerOfTwo(PowerAbove(n)) && (n > 0 ==> PowerAbove(n) / 2 <= n)
  {
    if n == 0 {
      assert Pow(2, 0) == 1;
    } else {
      PowerIsLeast(n / 2);
      var k: nat :| PowerAbove(n / 2) == Pow(2, k);
      assert Pow(2, k + 1) == 2 * Pow(2, k);
    }
  }

  class ChunkPolicy {
    const adaptive: bool
    var minChunkSize: nat

    constructor (adaptive: bool, chunkSize: nat)
      ensures minChunkSize == chunkSize && this.adaptive == adaptive
    {
      this.adaptive := adaptive;
      minChunkSize := chunkSize;
    }

    /** The minimum after a request. */
    ghost function NextMinimum(need: nat): nat
      reads this
    {
      if !adaptive || minChunkSize >= need || minChunkSize >= MAX_CHUNK then minChunkSize
      else if PowerAbove(need) < MAX_CHUNK then PowerAbove(need) else MAX_CHUNK
    }

    ghost function NextSize(need: nat): nat
      reads this
    {
      if NextMinimum(need) > need then NextMinimum(need) else need
    }

    /** At least the request; the minimum only grows, and adaptively no further than the maximum. */
    method ChunkSize(need: nat) returns (size: nat)
      requires need > 0
      modifies this
      ensures size == old(NextSize(need)) && minChunkSize == old(NextMinimum(need))
      ensures need <= size && old(minChunkSize) <= minChunkSize <= size
      ensures adaptive && need < MAX_CHUNK ==> minChunkSize >= need
      ensures adaptive && old(minChunkSize) <= MAX_CHUNK ==> minChunkSize <= MAX_CHUNK
      ensures minChunkSize > old(minChunkSize) ==>
                minChunkSize == MAX_CHUNK || (IsPowerOfTwo(minChunkSize) && minChunkSize / 2 <= need < minChunkSize)
    {
      if adaptive && minChunkSize < need && minChunkSize < MAX_CHUNK {
        var p := PowerAbove(need);
        PowerIsLeast(need);
        minChunkSize := if p < MAX_CHUNK then p else MAX_CHUNK;
      }
      size := if minChunkSize > need then minChunkSize else need;
    }
  }

  // ---- the pool ----

  method CopyBytes(memory: array<byte>, to: nat, from: nat, n: nat)
    requires to + n <= memory.Length && from + n <= memory.Length && (to + n <= from || from + n <= to)
    modifies memory
    ensures memory[to..to + n] == old(memory[from..from + n])
    ensures forall a :: 0 <= a < memory.Length && !(to <= a < to + n) ==> memory[a] == old(memory[a])
  {
    for i := 0 to n
      invariant forall a :: 0 <= a < memory.Length && !(to <= a < to + i) ==> memory[a] == old(memory[a])
      invariant forall a :: to <= a < to + i ==> memory[a] == old(memory[a - to + from])
    {
      memory[to + i] := memory[from + i];
    }
  }

  class MemoryPoolAllocator {
    /** The memory the chunks lie in, by address. */
    const memory: array<byte>
    const policy: ChunkPolicy
    /** The list of chunks, its head first. */
    var chunks: seq<Chunk>
    /** The blocks handed out since the last Clear. */
    ghost var blocks: seq<Block>

    ghost predicate Valid()
      reads this
    {
      Layout(chunks, blocks, memory.Length)
    }

    /** If the head chunk is too full for n bytes, the base allocator has room at `base` for the next one. */
    ghost predicate CanServe(n: nat, base: nat)
      requires Valid()
      reads this, policy
    {
      chunks[0].size + n > chunks[0].capacity ==> Offered(chunks, base, policy.NextSize(n), memory.Length)
    }

    /** A first chunk, empty or in a buffer of the user's. */
    constructor (memory: array<byte>, policy: ChunkPolicy, first: Chunk)
      requires ChunkOk(first, memory.Length) && first.size == 0
      ensures Valid() && blocks == [] && chunks == [first] && this.memory == memory && this.policy == policy
    {
      this.memory := memory;
      this.policy := policy;
      chunks := [first];
      blocks := [];
    }

    /** Only the head chunk serves allocations from now on. */
    method AddChunk(capacity: nat, base: nat)
      requires Valid() && Offered(chunks, base, capacity, memory.Length)
      modifies this`chunks
      ensures Valid() && chunks == [Chunk(base, capacity, 0)] + old(chunks)
    {
      AddChunkKeeps(chunks, blocks, memory.Length, base, capacity);
      chunks := [Chunk(base, capacity, 0)] + chunks;
    }

    /** Drops every chunk but the first one made. */
    method Clear()
      requires Valid()
      modifies this
      ensures Valid() && blocks == [] && chunks == [old(chunks[|chunks| - 1].(size := 0))]
    {
      ghost var all := chunks;
      while |chunks| > 1
        invariant 0 < |chunks| <= |all| && chunks == all[|all| - |chunks|..]
        decreases |chunks|
      {
        chunks := chunks[1..];
      }
      assert ChunkOk(all[|all| - 1], memory.Length);
      chunks := [chunks[0].(size := 0)];
      blocks := [];
    }

    /** A new block, cut off the head chunk; a new head chunk when it does not fit. */
    method Malloc(size: nat, base: nat) returns (p: Option<nat>)
      requires Valid() && CanServe(Align(size), base)
      modifies this, policy
      ensures Valid()
      ensures size == 0 ==> p == None && blocks == old(blocks) && chunks == old(chunks)
      ensures size > 0 ==> p.Some? && blocks == old(blocks) + [Block(p.value, Align(size))]
      ensures size > 0 ==>
                var n, head := Align(size), old(chunks[0]);
                if head.size + n <= head.capacity
                then p.value == head.Top() && chunks == old(chunks)[0 := head.(size := head.size + n)]
                else
                  var next := Chunk(base, old(policy.NextSize(n)), n);
                  p.value == next.Buffer() && chunks == [next] + old(chunks)
    {
      hide Layout, Bumped, Offered;
      if size == 0 {
        return None;
      }
      var n := Align(size);
      HasHead(chunks, blocks, memory.Length);
      if chunks[0].size + n > chunks[0].capacity {
        var capacity := policy.ChunkSize(n);
        AddChunk(capacity, base);
      }
      var head := chunks[0];
      BumpKeeps(chunks, blocks, memory.Length, n);
      BumpedIs(chunks, n);
      chunks := chunks[0 := head.(size := head.size + n)];
      blocks := blocks + [Block(head.Top(), n)];
      p := Some(head.Top());
    }

    /** The block is the last one of the head chunk, with room behind it. */
    static predicate CanGrow(chunks: seq<Chunk>, ptr: nat, original: nat, n: nat) {
      chunks != [] && ptr + original == chunks[0].Top() && chunks[0].size + (n - original) <= chunks[0].capacity
    }

    /** A block of the new size that starts with the old bytes.  It is the old block, when that is large
        enough or is the last one and can grow; every other block keeps its place and its bytes. */
    method Realloc(ptr: Option<nat>, originalSize: nat, newSize: nat, base: nat, ghost k: nat) returns (p: Option<nat>)
      requires Valid() && CanServe(Align(newSize), base)
      requires ptr.Some? ==> k < |blocks| && blocks[k].start == ptr.value && Align(originalSize) <= blocks[k].len
      modifies this, policy, memory
      ensures Valid()
      ensures ptr == None && newSize > 0 ==> p.Some? && blocks == old(blocks) + [Block(p.value, Align(newSize))]
      ensures newSize == 0 ==> p == None && blocks == old(blocks)
      ensures ptr.Some? && newSize > 0 ==>
                p.Some? && Reallocated(old(blocks), blocks, k, ptr.value, p.value, Align(originalSize), Align(newSize))
      ensures ptr.Some? && newSize > 0 ==>
                p.value + Align(originalSize) <= memory.Length && ptr.value + Align(originalSize) <= memory.Length &&
                memory[p.value..p.value + Align(originalSize)] ==
                old(memory[ptr.value..ptr.value + Align(originalSize)])
      ensures ptr.Some? && newSize > 0 && Align(originalSize) < Align(newSize) ==>
                (p == ptr <==> CanGrow(old(chunks), ptr.value, Align(originalSize), Align(newSize)))
      ensures forall l :: 0 <= l < |old(blocks)| ==> BytesKept(old(blocks)[l], old(memory[..]), memory[..])
    {
      hide Layout, Bumped, Offered, Disjoint, BytesKept, CanGrow;
      NothingChanged(chunks, blocks, memory[..]);
      if ptr == None {
        p := Malloc(newSize, base);
        return;
      }
      if newSize == 0 {
        return None;
      }
      var original, n := Align(originalSize), Align(newSize);
      InMemory(chunks, blocks, memory.Length, k);
      if original >= n {
        assert blocks[k := blocks[k]] == blocks;
        return ptr;
      }
      var grown := GrowInPlace(ptr.value, original, n, k);
      if grown {
        NothingChanged(old(chunks), old(blocks), memory[..]);
        return ptr;
      }
      AlignTwice(newSize);
      p := MoveBlock(ptr.value, original, n, base, k);
    }

    /** Simply expand the last block of the head chunk, if that is what it is and there is room. */
    method GrowInPlace(ptr: nat, original: nat, n: nat, ghost k: nat) returns (grown: bool)
      requires Valid() && k < |blocks| && blocks[k].start == ptr && original <= blocks[k].len && original < n
      requires original % 8 == 0 && n % 8 == 0
      modifies this`chunks, this`blocks
      ensures Valid()
      ensures grown <==> CanGrow(old(chunks), ptr, original, n)
      ensures grown ==> old(blocks[k].len) == original && blocks == old(blocks)[k := Block(ptr, n)]
      ensures !grown ==> blocks == old(blocks) && chunks == old(chunks)
    {
      hide Layout, Bumped;
      HasHead(chunks, blocks, memory.Length);
      var head := chunks[0];
      if ptr + original == head.Top() {
        var increment := n - original;
        if head.size + increment <= head.capacity {
          LastBlock(chunks, blocks, memory.Length, k, original);
          GrowKeeps(chunks, blocks, memory.Length, k, increment);
          BumpedIs(chunks, increment);
          chunks := chunks[0 := head.(size := head.size + increment)];
          blocks := blocks[k := Block(ptr, n)];
          return true;
        }
      }
      grown := false;
    }

    /** A new block with a copy of the old bytes; the old block is not freed. */
    method MoveBlock(ptr: nat, original: nat, n: nat, base: nat, ghost k: nat) returns (p: Option<nat>)
      requires Valid() && CanServe(n, base) && n > 0 && Align(n) == n
      requires k < |blocks| && blocks[k].start == ptr && original <= blocks[k].len && original < n
      modifies this, policy, memory
      ensures Valid() && p.Some? && p.value != ptr && blocks == old(blocks) + [Block(p.value, n)]
      ensures p.value + original <= memory.Length && ptr + original <= memory.Length
      ensures memory[p.value..p.value + original] == old(memory[ptr..ptr + original])
      ensures forall l :: 0 <= l < |old(blocks)| ==> BytesKept(old(blocks)[l], old(memory[..]), memory[..])
    {
      hide Layout, Offered, BytesKept;
      p := Malloc(n, base);
      FreshBlock(chunks, old(blocks), blocks, memory.Length, k, n);
      Copy(p.value, ptr, original, old(blocks), k);
    }

    /** memcpy to the block made last. */
    method Copy(to: nat, from: nat, n: nat, ghost before: seq<Block>, ghost k: nat)
      requires Valid() && |blocks| == |before| + 1 && blocks[..|before|] == before && k < |before|
      requires blocks[|before|].start == to && n < blocks[|before|].len
      requires before[k].start == from && n <= before[k].len
      modifies memory
      ensures to + n <= memory.Length && from + n <= memory.Length
      ensures memory[to..to + n] == old(memory[from..from + n])
      ensures forall l :: 0 <= l < |before| ==> BytesKept(before[l], old(memory[..]), memory[..])
    {
      hide Layout, BytesKept;
      ghost var was := memory[..];
      InMemory(chunks, blocks, memory.Length, |before|);
      InMemory(chunks, blocks, memory.Length, k);
      NewIsApart(chunks, blocks, memory.Length, k);
      CopyBytes(memory, to, from, n);
      forall l | 0 <= l < |before|
        ensures BytesKept(before[l], was, memory[..])
      {
        InMemory(chunks, blocks, memory.Length, l);
        NewIsApart(chunks, blocks, memory.Length, l);
        OutsideKept(before[l], was, memory[..], to, n);
      }
    }
  }

  /** What a successful Realloc does to the list of blocks. */
  ghost predicate Reallocated(before: seq<Block>, after: seq<Block>, k: nat, ptr: nat, p: nat, original: nat, n: nat) {
    k < |before| &&
    if p == ptr then after == before[k := Block(ptr, if before[k].len >= n then before[k].len else n)]
    else original < n && after == before + [Block(p, n)]
  }

  ghost predicate BytesKept(b: Block, before: seq<byte>, now: seq<byte>) {
    b.start + b.len <= |before| == |now| && now[b.start..b.start + b.len] == before[b.start..b.start + b.len]
  }

  lemma AlignTwice(x: nat)
    ensures Align(Align(x)) == Align(x)
  {}

  lemma HasHead(chunks: seq<Chunk>, blocks: seq<Block>, limit: nat)
    requires Layout(chunks, blocks, limit)
    ensures chunks != [] && chunks[0].size <= chunks[0].capacity
  {
    assert ChunkOk(chunks[0], limit);
  }

  lemma BumpedIs(chunks: seq<Chunk>, n: nat)
    requires chunks != []
    ensures Bumped(chunks, n) == chunks[0 := chunks[0].(size := chunks[0].size + n)]
  {}

  lemma InMemory(chunks: seq<Chunk>, blocks: seq<Block>, limit: nat, k: nat)
    requires Layout(chunks, blocks, limit) && k < |blocks|
    ensures blocks[k].start + blocks[k].len <= limit && blocks[k].len > 0 && blocks[k].start % 8 == 0
  {
    assert BlockOk(chunks, blocks[k]);
    var i :| 0 <= i < |chunks| && Inside(blocks[k], chunks[i]);
    assert ChunkOk(chunks[i], limit);
  }

  lemma NothingChanged(chunks: seq<Chunk>, blocks: seq<Block>, bytes: seq<byte>)
    requires Layout(chunks, blocks, |bytes|)
    ensures forall l :: 0 <= l < |blocks| ==> BytesKept(blocks[l], bytes, bytes)
  {
    hide Layout;
    forall l | 0 <= l < |blocks|
      ensures BytesKept(blocks[l], bytes, bytes)
    {
      InMemory(chunks, blocks, |bytes|, l);
    }
  }

  /** A block that ends, as its owner knows it, at the top of the head chunk really ends there. */
  lemma LastBlock(chunks: seq<Chunk>, blocks: seq<Block>, limit: nat, k: nat, original: nat)
    requires Layout(chunks, blocks, limit) && k < |blocks| && original <= blocks[k].len
    requires blocks[k].start + original == chunks[0].Top()
    ensures blocks[k].len == original && chunks[0].Buffer() <= blocks[k].start
  {
    var b := blocks[k];
    assert BlockOk(chunks, b);
    var i :| 0 <= i < |chunks| && Inside(b, chunks[i]);
    assert ChunkOk(chunks[0], limit) && ChunkOk(chunks[i], limit);
    if i > 0 {
      assert false;
    }
  }

  lemma NewIsApart(chunks: seq<Chunk>, blocks: seq<Block>, limit: nat, l: nat)
    requires Layout(chunks, blocks, limit) && l < |blocks| - 1
    ensures Disjoint(blocks[l], blocks[|blocks| - 1])
  {}

  lemma FreshBlock(chunks: seq<Chunk>, before: seq<Block>, blocks: seq<Block>, limit: nat, k: nat, n: nat)
    requires Layout(chunks, blocks, limit) && k < |before| && |blocks| == |before| + 1 && n > 0
    requires blocks == before + [Block(blocks[|before|].start, n)]
    ensures before[k].start != blocks[|before|].start
  {
    InMemory(chunks, blocks, limit, k);
    NewIsApart(chunks, blocks, limit, k);
  }

  lemma OutsideKept(b: Block, was: seq<byte>, now: seq<byte>, to: nat, n: nat)
    requires b.start + b.len <= |was| == |now| && (b.start + b.len <= to || to + n <= b.start)
    requires forall a :: 0 <= a < |was| && !(to <= a < to + n) ==> now[a] == was[a]
    ensures BytesKept(b, was, now)
  {}
}
