/** Decoding a string literal in place, 32 bytes at a time.  It succeeds on the same literals as the
    byte-at-a-time decoder, with the same bytes and the same end. */
module UnescapeBlocks {
  import opened Options
  import opened Json
  import opened Lexer
  import opened Memory
  import opened Bits
  import opened StringMask
  import opened Unescape

  /** Bytes that stand for themselves inside a literal. */
  predicate Ordinary(c: byte) { c >= 0x20 && c != QUOTE && c != BACKSLASH }

  predicate Plain(s: Bytes, i: nat, j: nat) { i <= j <= |s| && forall k :: i <= k < j ==> Ordinary(s[k]) }

  lemma {:induction false} PlainScan(s: Bytes, i: nat, j: nat, last: nat)
    requires Plain(s, i, j) && Contained(s, i, last)
    ensures ScanString(s, i) == Prepend(s[i..j], ScanString(s, j)) && Contained(s, j, last)
    decreases j - i
  {
    hide ScanString;
    if i == j {
      var r := ScanString(s, j);
      assert r.Some? ==> [] + r.value.bytes == r.value.bytes;
    } else {
      assert Ordinary(s[i]);
      ScanStringStep(s, i);
      PlainScan(s, i + 1, j, last);
      PrependTwice([s[i]], s[i + 1..j], ScanString(s, j));
      assert [s[i]] + s[i + 1..j] == s[i..j];
    }
  }

  lemma EscapeHasNoControl(s: Bytes, i: nat, k: nat)
    requires i < |s| && s[i] == BACKSLASH && ScanEscape(s, i).Some? && i <= k < ScanEscape(s, i).value.end
    ensures s[k] >= 0x20
  {
    if s[i + 1] == 0x75 {
      HexHasNoControl(s, i + 2, k);
      if k >= i + 6 {
        TwoAt(s, i + 6, BACKSLASH, 0x75);
        HexHasNoControl(s, i + 8, k);
      }
    }
  }

  lemma HexHasNoControl(s: Bytes, i: nat, k: nat)
    requires HexAt(s, i).Some?
    ensures i <= k < i + 4 ==> s[k] >= 0x20
  {
    if i <= k < i + 4 {
      var h := s[i..i + 4];
      assert HexDigit(h[k - i]).Some?;
    }
  }

  /** A control byte before any quote makes the literal invalid, whatever is escaped. */
  lemma {:induction false} ControlFails(s: Bytes, i: nat, u: nat)
    requires i <= u < |s| && s[u] < 0x20 && forall k :: i <= k < u ==> s[k] != QUOTE
    ensures ScanString(s, i) == None
    decreases u - i
  {
    hide ScanString, ScanEscape;
    ScanStringStep(s, i);
    if s[i] == BACKSLASH {
      if ScanEscape(s, i).Some? {
        var e := ScanEscape(s, i).value.end;
        if u < e {
          EscapeHasNoControl(s, i, u);
        }
        ControlFails(s, e, u);
      }
    } else if s[i] >= 0x20 {
      ControlFails(s, i + 1, u);
    }
  }

  // ---- one vector of the literal ----

  datatype StringBlock = StringBlock(bs: word, quote: word, unescaped: word) {
    predicate HasUnescaped() { And(Dec(quote), unescaped) != 0 }
    predicate HasQuoteFirst() { And(Dec(bs), quote) != 0 && !HasUnescaped() }
    predicate HasBackslash() { And(Dec(quote), bs) != 0 }
  }

  function Find(v: Bytes): StringBlock {
    StringBlock(Eq(v, BACKSLASH), Eq(v, QUOTE), Mask(v, (c: byte) => c <= 0x1f))
  }

  /** Bit i of each mask, for the vector loaded from s at src. */
  ghost predicate Loaded(b: StringBlock, s: Bytes, src: nat) {
    src + VEC_LEN <= |s| &&
    forall i: nat :: i < 64 ==>
      && (Bit(b.bs, i) <==> i < VEC_LEN && s[src + i] == BACKSLASH)
      && (Bit(b.quote, i) <==> i < VEC_LEN && s[src + i] == QUOTE)
      && (Bit(b.unescaped, i) <==> i < VEC_LEN && s[src + i] < 0x20)
  }

  lemma FindLoads(s: Bytes, src: nat)
    requires src + VEC_LEN <= |s|
    ensures Loaded(Find(s[src..src + VEC_LEN]), s, src)
  {
    hide Bit, Mask, Eq;
    var v := s[src..src + VEC_LEN];
    var b := Find(v);
    forall i: nat | i < 64
      ensures Bit(b.bs, i) <==> i < VEC_LEN && s[src + i] == BACKSLASH
      ensures Bit(b.quote, i) <==> i < VEC_LEN && s[src + i] == QUOTE
      ensures Bit(b.unescaped, i) <==> i < VEC_LEN && s[src + i] < 0x20
    {
      EqBit(v, BACKSLASH, i);
      EqBit(v, QUOTE, i);
      MaskBit(v, (c: byte) => c <= 0x1f, i);
    }
  }

  /** Some bit of b lies below every bit of a. */
  lemma FirstOf(a: word, b: word) returns (i: nat)
    requires And(Dec(a), b) != 0 && forall j: nat :: j < 64 ==> !(Bit(a, j) && Bit(b, j))
    ensures i == TrailingZeroes(And(Dec(a), b)) < 64 && Bit(b, i) && b != 0 && TrailingZeroes(b) <= i
    ensures forall j: nat :: j <= i ==> !Bit(a, j)
  {
    hide Bit, And, Dec, TrailingZeroes;
    i := TrailingZeroes(And(Dec(a), b));
    LowestBit(And(Dec(a), b));
    BelowLowest(a, b, i);
    SomeBit(b, i);
    forall j: nat | j <= i
      ensures !Bit(a, j)
    {
      if a == 0 {
        ZeroBit(j);
      } else {
        LowestBit(a);
      }
    }
  }

  lemma NoneOf(a: word, b: word, i: nat)
    requires And(Dec(a), b) == 0 && i < 64 && Bit(b, i) && forall j: nat :: j < 64 ==> !(Bit(a, j) && Bit(b, j))
    ensures a != 0 && TrailingZeroes(a) < i
  {
    hide Bit, And, Dec, TrailingZeroes;
    BelowLowest(a, b, i);
    ZeroBit(i);
    if a != 0 {
      LowestBit(a);
    }
  }

  lemma QuoteFirst(b: StringBlock, s: Bytes, src: nat)
    requires Loaded(b, s, src) && b.HasQuoteFirst()
    ensures b.quote != 0
    ensures var q := src + TrailingZeroes(b.quote);
            q < src + VEC_LEN && s[q] == QUOTE && Plain(s, src, q)
  {
    hide Bit, And, Dec, TrailingZeroes;
    var i := FirstOf(b.bs, b.quote);
    LowestBit(b.quote);
    var q := src + TrailingZeroes(b.quote);
    forall k | src <= k < q
      ensures Ordinary(s[k])
    {
      assert !Bit(b.quote, k - src) && !Bit(b.bs, k - src);
      if s[k] < 0x20 {
        NoneOf(b.quote, b.unescaped, k - src);
      }
    }
  }

  lemma UnescapedFails(b: StringBlock, s: Bytes, src: nat)
    requires Loaded(b, s, src) && b.HasUnescaped()
    ensures ScanString(s, src) == None
  {
    hide Bit, And, Dec, TrailingZeroes, ScanString;
    var u := FirstOf(b.quote, b.unescaped);
    forall k | src <= k < src + u
      ensures s[k] != QUOTE
    {
      assert !Bit(b.quote, k - src);
    }
    ControlFails(s, src, src + u);
  }

  lemma BackslashFirst(b: StringBlock, s: Bytes, src: nat)
    requires Loaded(b, s, src) && !b.HasUnescaped() && b.HasBackslash()
    ensures b.bs != 0
    ensures var e := src + TrailingZeroes(b.bs);
            e < src + VEC_LEN && s[e] == BACKSLASH && Plain(s, src, e)
  {
    hide Bit, And, Dec, TrailingZeroes;
    var i := FirstOf(b.quote, b.bs);
    LowestBit(b.bs);
    var e := src + TrailingZeroes(b.bs);
    forall k | src <= k < e
      ensures Ordinary(s[k])
    {
      assert !Bit(b.quote, k - src) && !Bit(b.bs, k - src);
      if s[k] < 0x20 {
        NoneOf(b.quote, b.unescaped, k - src);
        LowestBit(b.quote);
      }
    }
  }

  lemma NothingSpecial(b: StringBlock, s: Bytes, src: nat)
    requires Loaded(b, s, src) && !b.HasQuoteFirst() && !b.HasUnescaped() && !b.HasBackslash()
    ensures Plain(s, src, src + VEC_LEN)
  {
    hide Bit, And, Dec, TrailingZeroes;
    forall k | src <= k < src + VEC_LEN
      ensures Ordinary(s[k])
    {
      if b.quote != 0 {
        LowestBit(b.quote);
        NoneOf(b.bs, b.quote, TrailingZeroes(b.quote));
        LowestBit(b.bs);
        NoneOf(b.quote, b.bs, TrailingZeroes(b.bs));
      }
      ZeroBit(k - src);
      if s[k] == BACKSLASH {
        NoneOf(b.quote, b.bs, k - src);
      }
      if s[k] < 0x20 {
        NoneOf(b.quote, b.unescaped, k - src);
      }
    }
  }

  // ---- the decoder ----

  /** The literal up to its first escape: nothing is moved.  Stops at the backslash. */
  method FindFirst(buf: array<byte>, start: nat, ghost s: Bytes, ghost last: nat)
    returns (err: Error, closed: bool, src: nat)
    requires Contained(s, start, last) && last + VEC_LEN <= buf.Length == |s| && buf[start..] == s[start..]
    ensures err == NoError ==> Contained(s, src, last)
    ensures err == NoError ==> Plain(s, start, src) && src <= last && s[src] == if closed then QUOTE else BACKSLASH
    ensures err != NoError ==> ScanString(s, start) == None
  {
    hide ScanString, ScanEscape, Bit, And, Dec, TrailingZeroes, Find;
    src, closed := start, false;
    while true
      invariant start <= src <= last && Plain(s, start, src) && Contained(s, src, last)
      decreases last - src
    {
      var block := Find(buf[src..src + VEC_LEN]);
      SameSlice(buf[..], s, start, src, src + VEC_LEN);
      FindLoads(s, src);
      PlainScan(s, start, src, last);
      if block.HasQuoteFirst() {
        QuoteFirst(block, s, src);
        PlainScan(s, src, src + TrailingZeroes(block.quote), last);
        return NoError, true, src + TrailingZeroes(block.quote);
      }
      if block.HasUnescaped() {
        UnescapedFails(block, s, src);
        return UnEscaped, false, src;
      }
      if block.HasBackslash() {
        BackslashFirst(block, s, src);
        PlainScan(s, src, src + TrailingZeroes(block.bs), last);
        return NoError, false, src + TrailingZeroes(block.bs);
      }
      NothingSpecial(block, s, src);
      PlainScan(s, src, src + VEC_LEN, last);
      src := src + VEC_LEN;
    }
  }

  lemma SameSlice(d: Bytes, s: Bytes, i: nat, j: nat, k: nat)
    requires i <= j <= k <= |d| == |s| && d[i..] == s[i..]
    ensures d[j..k] == s[j..k]
  {
    assert d[j..k] == d[i..][j - i..][..k - j] && s[j..k] == s[i..][j - i..][..k - j];
  }

  /** Moves bytes down to dst until `stop` is found. */
  method MoveUntil(buf: array<byte>, src: nat, dst: nat, stop: byte, ghost s: Bytes, ghost end: nat)
    returns (srcNext: nat, dstNext: nat)
    requires dst <= src <= end < buf.Length == |s| && buf[src..] == s[src..] && s[end] == stop
    requires forall k :: src <= k < end ==> s[k] != stop
    modifies buf
    ensures srcNext == end && dstNext == dst + (end - src) && buf[dst..dstNext] == s[src..end]
    ensures buf[..dst] == old(buf[..dst]) && buf[end..] == s[end..]
  {
    SameBytes(buf[..], s, src);
    srcNext, dstNext := src, dst;
    while buf[srcNext] != stop
      invariant src <= srcNext <= end && dstNext == dst + (srcNext - src)
      invariant forall k :: srcNext <= k < |s| ==> buf[k] == s[k]
      invariant buf[dst..dstNext] == s[src..srcNext]
      invariant buf[..dst] == old(buf[..dst])
      decreases end - srcNext
    {
      buf[dstNext] := buf[srcNext];
      assert buf[dst..dstNext + 1] == buf[dst..dstNext] + [s[srcNext]];
      srcNext, dstNext := srcNext + 1, dstNext + 1;
    }
  }

  /** One vector behind an escape: its plain bytes are moved. */
  method MoveBlock(buf: array<byte>, src0: nat, dst0: nat, ghost s: Bytes, ghost last: nat)
    returns (err: Error, stopped: bool, closed: bool, src: nat, dst: nat)
    requires Contained(s, src0, last) && last + VEC_LEN <= buf.Length == |s| && buf[src0..] == s[src0..]
    requires dst0 <= src0
    modifies buf
    ensures buf[..dst0] == old(buf[..dst0])
    ensures err == NoError ==>
              && Plain(s, src0, src) && src <= last && Contained(s, src, last)
              && dst == dst0 + (src - src0) && buf[dst0..dst] == s[src0..src] && buf[src..] == s[src..]
              && if stopped then s[src] == (if closed then QUOTE else BACKSLASH) else src0 < src
    ensures err != NoError ==> ScanString(s, src0) == None
  {
    hide ScanString, ScanEscape, Bit, And, Dec, TrailingZeroes, Find, Prepend;
    ghost var now := buf[..];
    stopped, closed, src, dst := false, false, src0, dst0;
    var v := buf[src..src + VEC_LEN];
    var block := Find(v);
    SameSlice(now, s, src, src, src + VEC_LEN);
    FindLoads(s, src);
    err := NoError;
    if block.HasQuoteFirst() {
      QuoteFirst(block, s, src);
      src, dst := MoveUntil(buf, src, dst, QUOTE, s, src + TrailingZeroes(block.quote));
      stopped, closed := true, true;
    } else if block.HasUnescaped() {
      UnescapedFails(block, s, src);
      err := UnEscaped;
    } else if block.HasBackslash() {
      BackslashFirst(block, s, src);
      src, dst := MoveUntil(buf, src, dst, BACKSLASH, s, src + TrailingZeroes(block.bs));
      stopped := true;
    } else {
      NothingSpecial(block, s, src);
      Store(buf, dst, v);
      SameAhead(buf[..], now, s, dst + VEC_LEN, src, src + VEC_LEN);
      src, dst := src + VEC_LEN, dst + VEC_LEN;
    }
    if err == NoError {
      PlainScan(s, src0, src, last);
    }
  }

  /** From just behind an escape to the next backslash or the closing quote, moving the bytes. */
  method FindAndMove(buf: array<byte>, src0: nat, dst0: nat, ghost s: Bytes, ghost last: nat)
    returns (err: Error, closed: bool, src: nat, dst: nat)
    requires Contained(s, src0, last) && last + VEC_LEN <= buf.Length == |s| && buf[src0..] == s[src0..]
    requires dst0 <= src0
    modifies buf
    ensures buf[..dst0] == old(buf[..dst0])
    ensures err == NoError ==>
              && Plain(s, src0, src) && src <= last && s[src] == (if closed then QUOTE else BACKSLASH)
              && dst == dst0 + (src - src0) && buf[dst0..dst] == s[src0..src] && buf[src..] == s[src..]
    ensures err != NoError ==> ScanString(s, src0) == None
  {
    hide ScanString, ScanEscape, Prepend, Contained;
    src, dst, closed := src0, dst0, false;
    var stopped := false;
    ContainedRange(s, src0, last);
    while !stopped
      invariant src0 <= src <= last && Plain(s, src0, src) && Contained(s, src, last)
      invariant dst == dst0 + (src - src0) && buf[dst0..dst] == s[src0..src]
      invariant buf[src..] == s[src..] && buf[..dst0] == old(buf[..dst0])
      invariant stopped ==> s[src] == if closed then QUOTE else BACKSLASH
      decreases last - src, !stopped
    {
      ghost var now, a, d := buf[..], src, dst;
      PlainScan(s, src0, src, last);
      err, stopped, closed, src, dst := MoveBlock(buf, src, dst, s, last);
      KeepsFront(now, buf[..], dst0, d);
      if err != NoError {
        PrependNone(s[src0..a]);
        return;
      }
      Appended(now, buf[..], s, src0, dst0, a, d, src);
    }
    err := NoError;
  }

  lemma ContainedRange(s: Bytes, i: nat, last: nat)
    requires Contained(s, i, last)
    ensures i <= last < |s|
  {}

  lemma Appended(before: Bytes, now: Bytes, s: Bytes, src0: nat, dst0: nat, src: nat, dst: nat, end: nat)
    requires |before| == |now| == |s| && src0 <= src <= end <= |s| && dst0 <= dst && dst + (end - src) <= |s|
    requires dst == dst0 + (src - src0) && before[dst0..dst] == s[src0..src]
    requires now[..dst] == before[..dst] && now[dst..dst + (end - src)] == s[src..end]
    ensures now[dst0..dst + (end - src)] == s[src0..end] && now[..dst0] == before[..dst0]
  {
    assert now[dst0..dst] == now[..dst][dst0..] && before[dst0..dst] == before[..dst][dst0..];
    assert now[..dst0] == now[..dst][..dst0] && before[..dst0] == before[..dst][..dst0];
    assert now[dst0..dst + (end - src)] == now[dst0..dst] + now[dst..dst + (end - src)];
  }

  /** The literal up to its first escape stands for itself where it is. */
  lemma FirstRun(now: Bytes, s: Bytes, start: nat, src: nat, last: nat)
    requires |now| == |s| && start <= |s| && now[start..] == s[start..]
    requires Plain(s, start, src) && Contained(s, start, last)
    ensures src <= last && Contained(s, src, last) && Decoding(now, now, s, start, src, src, s[start..src])
  {
    hide ScanString, ScanEscape, Decoding, Prepend;
    PlainScan(s, start, src, last);
    StartDecoding(now, s, start);
    SameSlice(now, s, start, start, src);
    SameAhead(now, now, s, start, start, src);
    MoreDecoded(now, now, s, start, start, start, [], now, s[start..src], src);
    assert [] + s[start..src] == s[start..src];
  }

  /** The vector decoder. */
  method ParseStringInplace(buf: array<byte>, start: nat, ghost s: Bytes, ghost last: nat)
    returns (err: Error, n: nat, src: nat)
    requires Contained(s, start, last) && last + VEC_LEN <= buf.Length == |s| && buf[start..] == s[start..]
    modifies buf
    ensures Decoded(buf[..], old(buf[..]), s, start, err, n, src)
  {
    hide ScanString, ScanEscape, Decoding, Decoded, Prepend, Contained;
    ghost var before := buf[..];
    var closed;
    ContainedRange(s, start, last);
    assert before[start..] == buf[start..];
    StartDecoding(before, s, start);
    err, closed, src := FindFirst(buf, start, s, last);
    if err != NoError {
      FailDecoding(before, before, s, start, start, start, [], before, err, src);
      return err, 0, src;
    }
    FirstRun(before, s, start, src, last);
    var dst: nat := src;
    ghost var done := s[start..src];
    while !closed
      invariant dst <= src <= last && Contained(s, src, last)
      invariant s[src] == if closed then QUOTE else BACKSLASH
      invariant Decoding(buf[..], before, s, start, dst, src, done)
      decreases last - src, !closed
    {
      ghost var x: Bytes;
      DecodingAhead(buf[..], before, s, start, dst, src, done);
      ghost var now := buf[..];
      var srcNext, dstNext;
      err, closed, srcNext, dstNext, x := EscapeAndMove(buf, src, dst, s, last);
      if err != NoError {
        FailDecoding(now, before, s, start, dst, src, done, buf[..], err, srcNext);
        return err, 0, srcNext;
      }
      MoreDecoded(now, before, s, start, dst, src, done, buf[..], x, srcNext);
      done := done + x;
      src, dst := srcNext, dstNext;
    }
    ghost var now := buf[..];
    buf[dst] := 0;
    FinishDecoding(now, before, s, start, dst, src, done, buf[..]);
    return NoError, dst - start, src + 1;
  }

  /** One escape, and unless another follows at once, the plain bytes behind it. */
  method EscapeAndMove(buf: array<byte>, src: nat, dst: nat, ghost s: Bytes, ghost last: nat)
    returns (err: Error, closed: bool, srcNext: nat, dstNext: nat, ghost x: Bytes)
    requires Contained(s, src, last) && last + VEC_LEN <= buf.Length == |s| && s[src] == BACKSLASH
    requires dst <= src && buf[src..] == s[src..]
    modifies buf
    ensures buf[..dst] == old(buf[..dst])
    ensures err == NoError ==>
              ScanString(s, src) == Prepend(x, ScanString(s, srcNext)) && dstNext == dst + |x| <= srcNext <= |s| &&
              buf[dst..dstNext] == x && buf[srcNext..] == s[srcNext..] &&
              src < srcNext <= last && Contained(s, srcNext, last) && s[srcNext] == if closed then QUOTE else BACKSLASH
    ensures err != NoError ==> ScanString(s, src) == None
  {
    hide ScanString, ScanEscape, Prepend;
    closed, x := false, [];
    ScanStringStep(s, src);
    err, srcNext, dstNext := UnescapeOne(buf, src, dst, s);
    if err != NoError {
      return;
    }
    x := ScanEscape(s, src).value.bytes;
    ContainedStep(s, src, last);
    SameBytes(buf[..], s, srcNext);
    if buf[srcNext] == BACKSLASH {
      return;
    }
    ghost var mid, a, d := buf[..], srcNext, dstNext;
    err, closed, srcNext, dstNext := FindAndMove(buf, srcNext, dstNext, s, last);
    KeepsFront(mid, buf[..], dst, d);
    if err == NoError {
      PlainScan(s, a, srcNext, last);
      PrependTwice(x, s[a..srcNext], ScanString(s, srcNext));
      assert buf[dst..dstNext] == buf[dst..d] + buf[d..dstNext];
      x := x + s[a..srcNext];
    } else {
      PrependNone(x);
    }
  }

  lemma KeepsFront(before: Bytes, now: Bytes, i: nat, j: nat)
    requires i <= j <= |before| == |now| && before[..j] == now[..j]
    ensures before[..i] == now[..i] && before[i..j] == now[i..j]
  {
    assert before[..i] == before[..j][..i] && now[..i] == now[..j][..i];
    assert before[i..j] == before[..j][i..] && now[i..j] == now[..j][i..];
  }

  lemma PrependNone(x: Bytes)
    ensures Prepend(x, None) == None
  {}

  lemma ContainedStep(s: Bytes, i: nat, last: nat)
    requires Contained(s, i, last) && s[i] == BACKSLASH && ScanEscape(s, i).Some?
    ensures Contained(s, ScanEscape(s, i).value.end, last)
  {}
}
