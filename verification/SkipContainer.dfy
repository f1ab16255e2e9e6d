/** Skipping a whole array or object by counting one kind of bracket, 64 bytes at a time. */
module SkipContainer {
  import opened Options
  import opened Json
  import opened Bits
  import opened StringMask

  /** The byte-at-a-time meaning: from position i, `depth` brackets deep, the position just after
      the bracket that closes the container. */
  function Close(data: Bytes, i: nat, st: State, depth: nat, left: byte, right: byte): (r: Option<nat>)
    ensures r.Some? ==> i < r.value <= |data|
    decreases |data| - i
  {
    if i >= |data| then None
    else
      var next := Next(st, data[i]);
      if next.inString then Close(data, i + 1, next, depth, left, right)
      else if data[i] == right then
        if depth == 0 then Some(i + 1) else Close(data, i + 1, next, depth - 1, left, right)
      else Close(data, i + 1, next, if data[i] == left then depth + 1 else depth, left, right)
  }

  /** The block holds the next n bytes of the data and zeros after them. */
  predicate Loaded(block: Bytes, data: Bytes, pos: nat, n: nat) {
    && |block| == BLOCK && n <= BLOCK && pos + n <= |data|
    && (forall k :: 0 <= k < n ==> block[k] == data[pos + k])
    && (forall k :: n <= k < BLOCK ==> block[k] == 0)
  }

  /** Bit i is set when byte i is c outside every string. */
  ghost predicate Marks(w: word, block: Bytes, st: State, c: byte) {
    |block| == BLOCK &&
    forall i: nat :: i < BLOCK ==> (Bit(w, i) <==> block[i] == c && !After(st, block, i + 1).inString)
  }

  lemma MarksOutside(block: Bytes, st: State, c: byte, inString: word)
    requires |block| == BLOCK
    requires forall i: nat :: i < BLOCK ==> (Bit(inString, i) <==> After(st, block, i + 1).inString)
    ensures Marks(And(Eq(block, c), Not(inString)), block, st, c)
  {
    hide Bit, Eq, And, Not, After;
    forall i: nat | i < BLOCK
      ensures Bit(And(Eq(block, c), Not(inString)), i) <==> block[i] == c && !After(st, block, i + 1).inString
    {
      BitAnd(Eq(block, c), Not(inString), i);
      BitNot(inString, i);
      EqBit(block, c, i);
    }
  }

  /** Between two closing brackets only opening ones change the depth. */
  lemma {:induction false} Sweep(data: Bytes, pos: nat, n: nat, block: Bytes, st: State, lefts: word, i: nat, j: nat,
      depth: nat, left: byte, right: byte)
    requires Loaded(block, data, pos, n) && i <= j <= n && left != right
    requires Marks(lefts, block, st, left)
    requires forall k: nat :: i <= k < j ==> block[k] != right || After(st, block, k + 1).inString
    ensures CountBelow(lefts, i) <= CountBelow(lefts, j)
    ensures Close(data, pos + i, After(st, block, i), depth, left, right) ==
            Close(data, pos + j, After(st, block, j),
              depth + (CountBelow(lefts, j) - CountBelow(lefts, i)), left, right)
    decreases j - i
  {
    hide Bit;
    if i < j {
      Sweep(data, pos, n, block, st, lefts, i, j - 1, depth, left, right);
      assert After(st, block, j) == Next(After(st, block, j - 1), block[j - 1]);
      assert Bit(lefts, j - 1) <==> block[j - 1] == left && !After(st, block, j - 1 + 1).inString;
      var d := depth + (CountBelow(lefts, j - 1) - CountBelow(lefts, i));
      assert data[pos + (j - 1)] == block[j - 1];
      assert Close(data, pos + (j - 1), After(st, block, j - 1), d, left, right) ==
             Close(data, pos + j, After(st, block, j), if Bit(lefts, j - 1) then d + 1 else d, left, right);
    }
  }

  /** The closing brackets at or after bit k. */
  ghost predicate Remaining(w: word, rights: word, k: nat) {
    forall i: nat :: i < BLOCK ==> (Bit(w, i) <==> i >= k && Bit(rights, i))
  }

  lemma ClearLowest(w: word, rights: word, k: nat)
    requires w != 0 && Remaining(w, rights, k)
    ensures Remaining(And(w, Dec(w)), rights, TrailingZeroes(w) + 1)
    ensures k <= TrailingZeroes(w) < BLOCK && Bit(rights, TrailingZeroes(w))
    ensures forall i: nat :: k <= i < TrailingZeroes(w) ==> !Bit(rights, i)
  {
    hide Bit, And, Dec, TrailingZeroes;
    LowestBit(w);
    forall i: nat | i < BLOCK
      ensures Bit(And(w, Dec(w)), i) <==> i >= TrailingZeroes(w) + 1 && Bit(rights, i)
    {
      BitAnd(w, Dec(w), i);
      BitDec(w, i);
    }
  }

  /** The popcount in the source: opening brackets below the lowest remaining closing one. */
  lemma CountLefts(w: word, lefts: word, rights: word, k: nat)
    requires w != 0 && Remaining(w, rights, k)
    requires forall i: nat :: i < BLOCK ==> !(Bit(lefts, i) && Bit(rights, i))
    ensures CountOnes(And(Dec(w), lefts)) == CountBelow(lefts, TrailingZeroes(w))
  {
    hide Bit, And, Dec, TrailingZeroes, CountOnes;
    var x, t := And(Dec(w), lefts), TrailingZeroes(w);
    LowestBit(w);
    forall i: nat | i < BLOCK
      ensures Bit(x, i) <==> Bit(lefts, i) && i < t
    {
      BelowLowest(w, lefts, i);
    }
    CountWord(x);
    CountUpTo(x, lefts, t, BLOCK);
  }

  lemma CountWord(x: word)
    ensures CountOnes(x) == CountBelow(x, BLOCK)
  {
    hide Bit, CountOnes, CountBelow, Shr, Top;
    ShrTop(x, 63);
    ShrAdd(x, 63, 1);
    TopLow(x);
    ShrCarry(Top(x));
    CountTop(x, 64);
  }

  lemma ShrCarry(x: word)
    requires x == Carry(Low(x))
    ensures Shr(x, 1) == 0
  {
    ShrNone(Half(x), 0);
  }

  lemma {:induction false} CountUpTo(x: word, y: word, t: nat, n: nat)
    requires t <= n <= BLOCK && forall i: nat :: i < n ==> (Bit(x, i) <==> Bit(y, i) && i < t)
    ensures CountBelow(x, n) == CountBelow(y, t)
    decreases n
  {
    hide Bit;
    if n > 0 {
      if t == n {
        CountSame(x, y, n);
      } else {
        CountUpTo(x, y, t, n - 1);
      }
    }
  }

  /** One block: either the closing bracket is in it, or the counters move on to the next one.  No counter
      passes the bytes read, so below 2^31 bytes they stay in their `int`s. */
  method SkipBlock(block: Bytes, inString: word, lbraceNum: Int32, rbraceNum: Int32, left: byte, right: byte,
      ghost data: Bytes, ghost pos: nat, ghost n: nat, ghost st: State)
    returns (closed: bool, offset: nat, lbraceNext: Int32, rbraceNext: Int32)
    requires Loaded(block, data, pos, n) && left != right && left != 0 && right != 0
    requires |data| < INT_END && 0 <= rbraceNum <= lbraceNum <= pos
    requires forall i: nat :: i < BLOCK ==> (Bit(inString, i) <==> After(st, block, i + 1).inString)
    ensures var r := Close(data, pos, st, lbraceNum - rbraceNum, left, right);
            if closed then r == Some(pos + offset)
            else 0 <= rbraceNext <= lbraceNext <= pos + n &&
                 r == Close(data, pos + n, After(st, block, n), lbraceNext - rbraceNext, left, right)
  {
    hide Bit, Eq, And, Not, Dec, After, Close, TrailingZeroes, CountOnes, CountBelow, Loaded, Marks, Remaining;
    var rbrace := And(Eq(block, right), Not(inString));
    var lbrace := And(Eq(block, left), Not(inString));
    ghost var rights := rbrace;
    Start(lbrace, rbrace, st, block, data, pos, n);
    MarksOutside(block, st, left, inString);
    MarksOutside(block, st, right, inString);
    lbraceNext, rbraceNext := lbraceNum, rbraceNum;
    ghost var k: nat := 0;
    while rbrace != 0
      invariant k <= n && Remaining(rbrace, rights, k)
      invariant 0 <= rbraceNext <= lbraceNum + CountBelow(lbrace, k)
      invariant Close(data, pos, st, lbraceNum - rbraceNum, left, right) ==
                Close(data, pos + k, After(st, block, k), lbraceNum + CountBelow(lbrace, k) - rbraceNext, left, right)
      decreases BLOCK - k
    {
      ClearLowest(rbrace, rights, k);
      Apart(block, st, lbrace, rights, left, right);
      CountLefts(rbrace, lbrace, rights, k);
      ghost var t := TrailingZeroes(rbrace);
      NextRight(data, pos, n, block, st, lbrace, rights, k, t, lbraceNum, rbraceNext, left, right);
      rbraceNext := rbraceNext + 1;
      lbraceNext := lbraceNum + CountOnes(And(Dec(rbrace), lbrace));
      if lbraceNext < rbraceNext {
        return true, TrailingZeroes(rbrace) + 1, lbraceNext, rbraceNext;
      }
      rbrace := And(rbrace, Dec(rbrace));
      k := t + 1;
    }
    LastRight(data, pos, n, block, st, lbrace, rights, k, lbraceNum + CountBelow(lbrace, k) - rbraceNext, left, right);
    lbraceNext := lbraceNum + CountOnes(lbrace);
    closed, offset := false, 0;
  }

  /** From bit k, after the last closing bracket, to the next block. */
  lemma LastRight(data: Bytes, pos: nat, n: nat, block: Bytes, st: State, lbrace: word, rights: word, k: nat,
      depth: nat, left: byte, right: byte)
    requires Loaded(block, data, pos, n) && k <= n && left != right && left != 0
    requires Marks(rights, block, st, right) && Marks(lbrace, block, st, left) && Remaining(0, rights, k)
    ensures n >= CountOnes(lbrace) >= CountBelow(lbrace, k)
    ensures Close(data, pos + k, After(st, block, k), depth, left, right) ==
            Close(data, pos + n, After(st, block, n), depth + (CountOnes(lbrace) - CountBelow(lbrace, k)), left, right)
  {
    hide Bit, After, Close, CountOnes, CountBelow;
    NoRights(rights, k);
    Sweep(data, pos, n, block, st, lbrace, k, n, depth, left, right);
    CountWord(lbrace);
    CountPadding(data, pos, n, block, st, lbrace, left, BLOCK);
  }

  lemma Start(lbrace: word, rbrace: word, st: State, block: Bytes, data: Bytes, pos: nat, n: nat)
    requires Loaded(block, data, pos, n)
    ensures |block| == BLOCK && n <= BLOCK && pos + n <= |data|
    ensures CountBelow(lbrace, 0) == 0 && After(st, block, 0) == st && Remaining(rbrace, rbrace, 0)
  {
    hide Bit;
  }

  lemma NoRights(rights: word, k: nat)
    requires Remaining(0, rights, k)
    ensures forall i: nat :: k <= i < BLOCK ==> !Bit(rights, i)
  {
    hide Bit;
    forall i: nat | k <= i < BLOCK
      ensures !Bit(rights, i)
    {
      ZeroBit(i);
    }
  }

  lemma Apart(block: Bytes, st: State, lbrace: word, rights: word, left: byte, right: byte)
    requires Marks(rights, block, st, right) && Marks(lbrace, block, st, left) && left != right
    ensures forall i: nat :: i < BLOCK ==> !(Bit(lbrace, i) && Bit(rights, i))
  {
    hide Bit, After;
  }

  lemma AtRight(data: Bytes, pos: nat, n: nat, block: Bytes, st: State, lbrace: word, rights: word, t: nat,
      depth: nat, left: byte, right: byte)
    requires Loaded(block, data, pos, n) && t < BLOCK && left != right && right != 0
    requires Marks(rights, block, st, right) && Marks(lbrace, block, st, left) && Bit(rights, t)
    ensures t < n && CountBelow(lbrace, t + 1) == CountBelow(lbrace, t)
    ensures Close(data, pos + t, After(st, block, t), depth, left, right) ==
            if depth == 0 then Some(pos + t + 1)
            else Close(data, pos + (t + 1), After(st, block, t + 1), depth - 1, left, right)
  {
    hide Bit;
    assert block[t] == right && !After(st, block, t + 1).inString;
    assert t < n;
    assert !Bit(lbrace, t);
    assert data[pos + t] == right;
  }

  /** From bit k to the next closing bracket, at bit t. */
  lemma NextRight(data: Bytes, pos: nat, n: nat, block: Bytes, st: State, lbrace: word, rights: word, k: nat, t: nat,
      lbraceNum: nat, rbraceNum: nat, left: byte, right: byte)
    requires Loaded(block, data, pos, n) && k <= t < BLOCK && left != right && right != 0 && left != 0
    requires Marks(rights, block, st, right) && Marks(lbrace, block, st, left) && Bit(rights, t)
    requires forall i: nat :: k <= i < t ==> !Bit(rights, i)
    requires rbraceNum <= lbraceNum + CountBelow(lbrace, k)
    ensures t < n && CountBelow(lbrace, t + 1) == CountBelow(lbrace, t) >= CountBelow(lbrace, k)
    ensures k <= n
    ensures Close(data, pos + k, After(st, block, k), lbraceNum + CountBelow(lbrace, k) - rbraceNum, left, right) ==
            if lbraceNum + CountBelow(lbrace, t) == rbraceNum then Some(pos + t + 1)
            else Close(data, pos + (t + 1), After(st, block, t + 1),
                   lbraceNum + CountBelow(lbrace, t + 1) - (rbraceNum + 1), left, right)
  {
    hide Bit, Close, After, CountBelow;
    assert Bit(rights, t) <==> block[t] == right && !After(st, block, t + 1).inString;
    forall i: nat | k <= i < t
      ensures block[i] != right || After(st, block, i + 1).inString
    {
      assert !Bit(rights, i);
    }
    Sweep(data, pos, n, block, st, lbrace, k, t, lbraceNum + CountBelow(lbrace, k) - rbraceNum, left, right);
    AtRight(data, pos, n, block, st, lbrace, rights, t, lbraceNum + CountBelow(lbrace, t) - rbraceNum, left, right);
  }

  lemma {:induction false} CountPadding(data: Bytes, pos: nat, n: nat, block: Bytes, st: State, lbrace: word,
      left: byte, k: nat)
    requires Loaded(block, data, pos, n) && n <= k <= BLOCK && left != 0 && Marks(lbrace, block, st, left)
    ensures CountBelow(lbrace, k) == CountBelow(lbrace, n)
    decreases k
  {
    hide Bit;
    if n < k {
      CountPadding(data, pos, n, block, st, lbrace, left, k - 1);
      assert !Bit(lbrace, k - 1);
    }
  }

  /** Over any number of blocks and a zero-padded tail, the block-wise count finds the bracket the
      byte-at-a-time count finds, or fails when there is none. */
  method SkipContainer(data: Bytes, start: nat, left: byte, right: byte) returns (closed: bool, pos: nat)
    requires start <= |data| < INT_END && left != right && left != 0 && right != 0
    ensures closed <==> Close(data, start, State(false, false), 0, left, right).Some?
    ensures closed ==> Close(data, start, State(false, false), 0, left, right) == Some(pos)
  {
    hide Close, After, Bit, Fill, Carry;
    pos := start;
    var prevInString: word, prevEscaped: word := 0, 0;
    var rbraceNum: Int32, lbraceNum: Int32 := 0, 0;
    ghost var st := State(false, false);
    NothingCarried();
    while pos + BLOCK <= |data|
      invariant start <= pos <= |data| && 0 <= rbraceNum <= lbraceNum <= pos && Carries(prevInString, prevEscaped, st)
      invariant Close(data, start, State(false, false), 0, left, right) ==
                Close(data, pos, st, lbraceNum - rbraceNum, left, right)
    {
      var block := data[pos..pos + BLOCK];
      var inString;
      inString, prevInString, prevEscaped := GetStringBits(block, prevInString, prevEscaped, st);
      var offset;
      closed, offset, lbraceNum, rbraceNum :=
        SkipBlock(block, inString, lbraceNum, rbraceNum, left, right, data, pos, BLOCK, st);
      if closed {
        pos := pos + offset;
        return;
      }
      st := After(st, block, BLOCK);
      pos := pos + BLOCK;
    }
    var n := |data| - pos;
    var buf := data[pos..] + seq(BLOCK - n, _ => 0);
    var inString;
    inString, prevInString, prevEscaped := GetStringBits(buf, prevInString, prevEscaped, st);
    var offset;
    closed, offset, lbraceNum, rbraceNum :=
      SkipBlock(buf, inString, lbraceNum, rbraceNum, left, right, data, pos, n, st);
    if closed {
      pos := pos + offset;
    } else {
      CloseAtEnd(data, After(st, buf, n), lbraceNum - rbraceNum, left, right);
    }
  }

  lemma CloseAtEnd(data: Bytes, st: State, depth: nat, left: byte, right: byte)
    ensures Close(data, |data|, st, depth, left, right) == None
  {}

  lemma NothingCarried()
    ensures Carries(0, 0, State(false, false))
  {}
}
