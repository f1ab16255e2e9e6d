/** Skipping white space through a cached 64-bit map of the last block looked at.  The map stays right
    for every position still ahead, although the parser rewrites the bytes behind it. */
module SkipSpace {
  import opened Json
  import opened Lexer
  import opened Sentinel
  import opened Bits
  import opened StringMask

  /** The 16-entry shuffle the vector code compares each byte with. */
  const WHITESPACE_TABLE: Bytes :=
    [0x20, 100, 100, 100, 17, 100, 113, 2, 100, 0x09, 0x0a, 112, 100, 0x0d, 100, 100]

  function Shuffled(c: byte): byte { if c >= 0x80 then 0 else WHITESPACE_TABLE[c % 16] }

  /** The table holds exactly the four white-space bytes at their own low nibble. */
  lemma ShuffleFindsSpace(c: byte)
    ensures Shuffled(c) == c <==> IsSpace(c)
  {
    var h, l := c / 16, c % 16;
    assert c == 16 * h + l;
    assert c < 0x80 ==> h < 8;
  }

  function GetNonSpaceBits(block: Bytes): word { Not(Mask(block, (c: byte) => Shuffled(c) == c)) }

  lemma NonSpaceBit(block: Bytes, i: nat)
    requires i < |block| <= BLOCK
    ensures Bit(GetNonSpaceBits(block), i) <==> !IsSpace(block[i])
  {
    hide Bit, Not, Mask, Shuffled;
    BitNot(Mask(block, (c: byte) => Shuffled(c) == c), i);
    MaskBit(block, (c: byte) => Shuffled(c) == c, i);
    ShuffleFindsSpace(block[i]);
  }

  /** 1 << p. */
  function OneShl(p: nat): word { if p == 0 then 1 else Shl(OneShl(p - 1)) }

  lemma {:induction false} OneShlBit(p: nat, i: nat)
    requires i < 64
    ensures Bit(OneShl(p), i) <==> i == p
    decreases p
  {
    hide Bit, Shl;
    if p == 0 {
      CarryBit(true, i);
    } else {
      BitShl(OneShl(p - 1), i);
      if i > 0 {
        OneShlBit(p - 1, i - 1);
      }
    }
  }

  /** Dropping the bits below p. */
  lemma FromBit(x: word, p: nat, i: nat)
    requires p < 64 && i < 64
    ensures Bit(And(x, Not(Dec(OneShl(p)))), i) <==> Bit(x, i) && i >= p
  {
    hide Bit, And, Not, Dec, OneShl, TrailingZeroes;
    var m := OneShl(p);
    OneShlBit(p, p);
    SomeBit(m, p);
    LowestBit(m);
    OneShlBit(p, TrailingZeroes(m));
    OneShlBit(p, i);
    BitDec(m, i);
    BitNot(Dec(m), i);
    BitAnd(x, Not(Dec(m)), i);
  }

  /** A run of white space from i to j. */
  predicate Spaces(s: Bytes, i: nat, j: nat) { i <= j <= |s| && forall k :: i <= k < j ==> IsSpace(s[k]) }

  lemma {:induction false} SkipRun(s: Bytes, i: nat, j: nat)
    requires Spaces(s, i, j)
    ensures Skip(s, i) == Skip(s, j)
    decreases j - i
  {
    if i < j {
      assert IsSpace(s[i]);
      SkipRun(s, i + 1, j);
    }
  }

  /** The map says of each position in [pos, end) whether it is white space. */
  ghost predicate Cached(s: Bytes, pos: nat, end: nat, bits: word) {
    end <= |s| && (end == 0 || BLOCK <= end < pos + BLOCK) &&
    forall p :: pos <= p < end ==> (Bit(bits, p - (end - BLOCK)) <==> !IsSpace(s[p]))
  }

  /** Bit i of the map says whether the byte at base + i lies ahead of pos and is not white space. */
  ghost predicate Maps(w: word, s: Bytes, base: nat, pos: nat) {
    base + BLOCK <= |s| && base <= pos <= base + BLOCK &&
    forall i: nat :: i < BLOCK ==> (Bit(w, i) <==> base + i >= pos && !IsSpace(s[base + i]))
  }

  /** The lowest set bit of the map of the bytes from `from` on marks the next byte that is not white
      space. */
  lemma FirstNonSpace(s: Bytes, pos: nat, base: nat, bits: word)
    requires bits != 0 && Maps(bits, s, base, pos)
    ensures Skip(s, pos) == base + TrailingZeroes(bits) < base + BLOCK && pos <= base + TrailingZeroes(bits)
  {
    hide Bit, TrailingZeroes, Skip, IsSpace;
    LowestBit(bits);
    var j := base + TrailingZeroes(bits);
    forall k | pos <= k < j
      ensures IsSpace(s[k])
    {
      assert !Bit(bits, k - base);
    }
    SkipRun(s, pos, j);
    NoSkip(s, j);
  }

  lemma NoSkip(s: Bytes, j: nat)
    requires j < |s| && !IsSpace(s[j])
    ensures Skip(s, j) == j
  {}

  lemma AllSpaces(s: Bytes, pos: nat, base: nat, bits: word)
    requires bits == 0 && Maps(bits, s, base, pos)
    ensures Skip(s, pos) == Skip(s, base + BLOCK) && Spaces(s, pos, base + BLOCK)
  {
    hide Bit, Skip, IsSpace;
    forall k | pos <= k < base + BLOCK
      ensures IsSpace(s[k])
    {
      ZeroBit(k - base);
      assert !Bit(bits, k - base);
    }
    SkipRun(s, pos, base + BLOCK);
  }

  /** Spaces end before the end mark. */
  lemma InText(s: Bytes, n: nat, i: nat, j: nat)
    requires Padded(s, n) && i <= n && Spaces(s, i, j)
    ensures j <= n
  {}

  class SkipScanner {
    var bitsEnd: nat
    var bits: word

    constructor ()
      ensures bitsEnd == 0
    {
      bitsEnd, bits := 0, 0;
    }

    ghost predicate Valid(s: Bytes, pos: nat)
      reads this
    {
      Cached(s, pos, bitsEnd, bits)
    }

    /** Look at whole blocks from `from` on, and remember the last one. */
    method FindSpace(data: array<byte>, start: nat, ghost s: Bytes, ghost n: nat) returns (c: byte, pos: nat)
      requires Padded(s, n) && start <= n && data.Length == |s| && data[start..] == s[start..]
      modifies this
      ensures pos == Skip(s, start) + 1 <= |s| && c == s[pos - 1] && Valid(s, pos)
    {
      hide Bit, Skip, GetNonSpaceBits, TrailingZeroes, IsSpace;
      pos := start;
      while true
        invariant start <= pos <= n && Skip(s, pos) == Skip(s, start)
        decreases n - pos
      {
        var nonspace := GetNonSpaceBits(data[pos..pos + BLOCK]);
        assert data[pos..pos + BLOCK] == s[pos..pos + BLOCK] by {
          SameTail(data[..], s, start, pos, pos + BLOCK);
        }
        BlockBits(s, pos);
        if nonspace != 0 {
          bitsEnd := pos + BLOCK;
          FirstNonSpace(s, pos, pos, nonspace);
          pos := pos + TrailingZeroes(nonspace);
          bits := nonspace;
          c := data[pos];
          pos := pos + 1;
          SameByte(data[..], s, start, pos - 1);
          return;
        } else {
          AllSpaces(s, pos, pos, nonspace);
          InText(s, n, pos, pos + BLOCK);
          pos := pos + BLOCK;
        }
      }
    }

    /** The next byte that is not white space, and the position after it. */
    method SkipSpace(data: array<byte>, start: nat, ghost s: Bytes, ghost n: nat) returns (c: byte, pos: nat)
      requires Padded(s, n) && (start <= n || start == n + 2)
      requires data.Length == |s| && data[start..] == s[start..] && Valid(s, start)
      modifies this
      ensures pos == Skip(s, start) + 1 <= |s| && c == s[pos - 1] && Valid(s, pos)
    {
      hide Bit;
      pos := start;
      SameByte(data[..], s, start, start);
      if !IsSpace(data[pos]) {
        return data[pos], pos + 1;
      }
      pos := pos + 1;
      SameByte(data[..], s, start, pos);
      if !IsSpace(data[pos]) {
        return data[pos], pos + 1;
      }
      pos := pos + 1;
      TwoSpaces(s, n, start);
      hide Skip;
      SameSuffix(data[..], s, start, pos);
      if pos < bitsEnd {
        var found;
        found, c, pos := LookInCache(data[..], pos, s);
        if found {
          return;
        }
        InText(s, n, start + 2, pos);
        SameSuffix(data[..], s, start, pos);
      }
      c, pos := FindSpace(data, pos, s, n);
    }

    /** The part of the cached block from `start` on; when it is all white space, the position after it. */
    method LookInCache(data: Bytes, start: nat, ghost s: Bytes) returns (found: bool, c: byte, pos: nat)
      requires |data| == |s| && start < bitsEnd && Valid(s, start) && data[start..] == s[start..]
      ensures found ==> pos == Skip(s, start) + 1 <= |s| && c == s[pos - 1] && Valid(s, pos)
      ensures !found ==> pos == bitsEnd && Skip(s, start) == Skip(s, pos) && Spaces(s, start, pos)
    {
      hide Bit, TrailingZeroes, Skip, IsSpace, OneShl, And, Not, Dec;
      assert start + BLOCK > bitsEnd && start >= bitsEnd - BLOCK;
      var blockStart := bitsEnd - BLOCK;
      var bitPos := start - blockStart;
      var mask := Dec(OneShl(bitPos));
      var nonspace := And(bits, Not(mask));
      CachedBits(s, start, bitsEnd, bits, start);
      if nonspace == 0 {
        AllSpaces(s, start, blockStart, nonspace);
        found, c, pos := false, 0, bitsEnd;
      } else {
        FirstNonSpace(s, start, blockStart, nonspace);
        pos := blockStart + TrailingZeroes(nonspace);
        c := data[pos];
        SameByte(data, s, start, pos);
        found, pos := true, pos + 1;
      }
    }

    // ---- without an end mark ----

    /** The next byte that is not white space, with a length check instead of an end mark; at the end of
        the text the last byte is returned whatever it is. */
    method SkipSpaceSafe(data: Bytes, start: nat) returns (c: byte, pos: nat)
      requires data != [] && start <= |data| && Valid(data, start)
      modifies this
      ensures pos == SafeSkip(data, start) && start <= pos && 0 < pos <= |data|
      ensures c == data[pos - 1] && Valid(data, pos)
    {
      hide Bit, Skip, SafeSkip;
      pos := start;
      if pos + 64 + 2 > |data| {
        c, pos := SkipSpaceTail(data, pos);
        return;
      }
      if !IsSpace(data[pos]) {
        SafeStop(data, pos);
        return data[pos], pos + 1;
      }
      SafeStep(data, pos);
      pos := pos + 1;
      if !IsSpace(data[pos]) {
        SafeStop(data, pos);
        return data[pos], pos + 1;
      }
      SafeStep(data, pos);
      pos := pos + 1;
      if pos < bitsEnd {
        var found;
        found, c, pos := LookInCache(data, pos, data);
        if found {
          SafeFound(data, start, pos - 1);
          return;
        }
      }
      SafeSame(data, start, pos);
      c, pos := FindSpaceSafe(data, pos);
    }

    method FindSpaceSafe(data: Bytes, start: nat) returns (c: byte, pos: nat)
      requires data != [] && start <= |data| && Valid(data, start)
      modifies this
      ensures pos == SafeSkip(data, start) && start <= pos && 0 < pos <= |data|
      ensures c == data[pos - 1] && Valid(data, pos)
    {
      hide Bit, Skip, GetNonSpaceBits, TrailingZeroes, IsSpace, SafeSkip;
      pos := start;
      while pos + 64 <= |data|
        invariant start <= pos <= |data| && Skip(data, pos) == Skip(data, start) && Valid(data, pos)
      {
        var nonspace := GetNonSpaceBits(data[pos..pos + BLOCK]);
        BlockBits(data, pos);
        if nonspace != 0 {
          FirstNonSpace(data, pos, pos, nonspace);
          bitsEnd := pos + 64;
          pos := pos + TrailingZeroes(nonspace);
          bits := nonspace;
          SafeFound(data, start, pos);
          return data[pos], pos + 1;
        } else {
          AllSpaces(data, pos, pos, nonspace);
          pos := pos + 64;
        }
      }
      SafeSame(data, start, pos);
      c, pos := SkipSpaceTail(data, pos);
    }

    method SkipSpaceTail(data: Bytes, start: nat) returns (c: byte, pos: nat)
      requires data != [] && start <= |data| && Valid(data, start)
      ensures pos == SafeSkip(data, start) && start <= pos && 0 < pos <= |data|
      ensures c == data[pos - 1] && Valid(data, pos)
    {
      hide Bit, Skip, SafeSkip;
      pos := start;
      var done := false;
      SafeEnd(data);
      while pos < |data| && !done
        invariant start <= pos <= |data| && (done ==> pos > 0)
        invariant SafeSkip(data, start) == if done then pos else SafeSkip(data, pos)
        decreases |data| - pos
      {
        done := !IsSpace(data[pos]);
        if done {
          SafeStop(data, pos);
        } else {
          SafeStep(data, pos);
        }
        pos := pos + 1;
      }
      c := data[pos - 1];
    }
  }

  /** Past the next byte that is not white space, or at the end. */
  function SafeSkip(s: Bytes, i: nat): (j: nat)
    requires i <= |s|
    ensures i <= j <= |s|
  {
    if Skip(s, i) < |s| then Skip(s, i) + 1 else |s|
  }

  lemma SafeStop(s: Bytes, i: nat)
    requires i < |s| && !IsSpace(s[i])
    ensures SafeSkip(s, i) == i + 1
  {}

  lemma SafeStep(s: Bytes, i: nat)
    requires i < |s| && IsSpace(s[i])
    ensures SafeSkip(s, i) == SafeSkip(s, i + 1) && Skip(s, i) == Skip(s, i + 1)
  {}

  lemma SafeSame(s: Bytes, i: nat, j: nat)
    requires i <= |s| && j <= |s| && Skip(s, i) == Skip(s, j)
    ensures SafeSkip(s, i) == SafeSkip(s, j)
  {}

  lemma SafeFound(s: Bytes, i: nat, j: nat)
    requires i <= j < |s| && Skip(s, i) == j
    ensures SafeSkip(s, i) == j + 1
  {}

  lemma SafeEnd(s: Bytes)
    ensures SafeSkip(s, |s|) == |s|
  {}

  lemma TwoSpaces(s: Bytes, n: nat, i: nat)
    requires Padded(s, n) && i + 1 < |s| && IsSpace(s[i]) && IsSpace(s[i + 1]) && (i <= n || i == n + 2)
    ensures Skip(s, i) == Skip(s, i + 2) && i + 2 <= n
  {}

  lemma BlockBits(s: Bytes, pos: nat)
    requires pos + BLOCK <= |s|
    ensures Maps(GetNonSpaceBits(s[pos..pos + BLOCK]), s, pos, pos)
  {
    hide Bit, GetNonSpaceBits, IsSpace;
    var w := GetNonSpaceBits(s[pos..pos + BLOCK]);
    forall i: nat | i < BLOCK
      ensures Bit(w, i) <==> pos + i >= pos && !IsSpace(s[pos + i])
    {
      NonSpaceBit(s[pos..pos + BLOCK], i);
    }
  }

  lemma CachedBits(s: Bytes, start: nat, end: nat, bits: word, pos: nat)
    requires Cached(s, start, end, bits) && start <= pos < end
    ensures Maps(And(bits, Not(Dec(OneShl(pos - (end - BLOCK))))), s, end - BLOCK, pos)
  {
    hide Bit, IsSpace, And, Not, Dec, OneShl;
    var base := end - BLOCK;
    var w := And(bits, Not(Dec(OneShl(pos - base))));
    forall i: nat | i < BLOCK
      ensures Bit(w, i) <==> base + i >= pos && !IsSpace(s[base + i])
    {
      FromBit(bits, pos - base, i);
      if base + i >= pos {
        var p := base + i;
        assert Bit(bits, p - base) <==> !IsSpace(s[p]);
      }
    }
  }

  lemma SameByte(d: Bytes, s: Bytes, i: nat, j: nat)
    requires i <= j < |d| == |s| && d[i..] == s[i..]
    ensures d[j] == s[j]
  {
    assert d[i..][j - i] == s[i..][j - i];
  }

  lemma SameSuffix(d: Bytes, s: Bytes, i: nat, j: nat)
    requires i <= j <= |d| == |s| && d[i..] == s[i..]
    ensures d[j..] == s[j..]
  {
    assert d[j..] == d[i..][j - i..] && s[j..] == s[i..][j - i..];
  }

  lemma SameTail(d: Bytes, s: Bytes, i: nat, j: nat, k: nat)
    requires i <= j <= k <= |d| == |s| && d[i..] == s[i..]
    ensures d[j..k] == s[j..k]
  {
    SameSuffix(d, s, i, j);
    assert d[j..k] == d[j..][..k - j] && s[j..k] == s[j..][..k - j];
  }
}
