/** Moving over a string literal or up to the next of some token bytes, 32 bytes at a time. */
module TokenSkip {
  import opened Options
  import opened Json
  import opened Bits
  import opened StringMask
  import opened Unescape

  // ---- the next token ----

  /** The first position from i on that holds one of the tokens, or the end. */
  function FindToken(s: Bytes, i: nat, tokens: Bytes): (j: nat)
    requires i <= |s|
    ensures i <= j <= |s| && (j < |s| ==> s[j] in tokens)
    decreases |s| - i
  {
    if i == |s| || s[i] in tokens then i else FindToken(s, i + 1, tokens)
  }

  lemma {:induction false} NoToken(s: Bytes, i: nat, j: nat, tokens: Bytes)
    requires i <= j <= |s| && forall k :: i <= k < j ==> s[k] !in tokens
    ensures FindToken(s, i, tokens) == FindToken(s, j, tokens)
    decreases j - i
  {
    if i < j {
      NoToken(s, i + 1, j, tokens);
    }
  }

  /** One comparison for each token, or-ed together. */
  method TokenBits(block: Bytes, tokens: Bytes) returns (bits: word)
    requires |block| == VEC_LEN
    ensures forall i: nat :: i < BLOCK ==> (Bit(bits, i) <==> i < VEC_LEN && block[i] in tokens)
  {
    hide Bit, Or, Eq;
    bits := 0;
    forall i: nat | i < BLOCK
      ensures !Bit(0, i)
    {
      ZeroBit(i);
    }
    for n := 0 to |tokens|
      invariant forall i: nat :: i < BLOCK ==> (Bit(bits, i) <==> i < VEC_LEN && block[i] in tokens[..n])
    {
      var more := Or(bits, Eq(block, tokens[n]));
      forall i: nat | i < BLOCK
        ensures Bit(more, i) <==> i < VEC_LEN && block[i] in tokens[..n + 1]
      {
        BitOr(bits, Eq(block, tokens[n]), i);
        EqBit(block, tokens[n], i);
        assert tokens[..n + 1] == tokens[..n] + [tokens[n]];
      }
      bits := more;
    }
    assert tokens[..|tokens|] == tokens;
  }

  /** The byte found, or 0 at the end. */
  method GetNextToken(data: Bytes, start: nat, tokens: Bytes) returns (c: byte, pos: nat)
    requires start <= |data|
    ensures pos == FindToken(data, start, tokens)
    ensures c == if pos < |data| then data[pos] else 0
  {
    hide Bit, TrailingZeroes, FindToken;
    pos := start;
    while pos + VEC_LEN <= |data|
      invariant start <= pos <= |data| && FindToken(data, start, tokens) == FindToken(data, pos, tokens)
    {
      var next := TokenBits(data[pos..pos + VEC_LEN], tokens);
      if next != 0 {
        LowestBit(next);
        var t := TrailingZeroes(next);
        NoToken(data, pos, pos + t, tokens) by {
          forall k | pos <= k < pos + t
            ensures data[k] !in tokens
          {
            assert !Bit(next, k - pos);
          }
        }
        pos := pos + t;
        FoundToken(data, pos, tokens);
        return data[pos], pos;
      }
      NoToken(data, pos, pos + VEC_LEN, tokens) by {
        forall k | pos <= k < pos + VEC_LEN
          ensures data[k] !in tokens
        {
          ZeroBit(k - pos);
          assert !Bit(next, k - pos);
        }
      }
      pos := pos + VEC_LEN;
    }
    while pos < |data|
      invariant start <= pos <= |data| && FindToken(data, start, tokens) == FindToken(data, pos, tokens)
    {
      if data[pos] in tokens {
        FoundToken(data, pos, tokens);
        return data[pos], pos;
      }
      NoToken(data, pos, pos + 1, tokens);
      pos := pos + 1;
    }
    EndToken(data, tokens);
    c := 0;
  }

  lemma FoundToken(s: Bytes, i: nat, tokens: Bytes)
    requires i < |s| && s[i] in tokens
    ensures FindToken(s, i, tokens) == i
  {}

  lemma EndToken(s: Bytes, tokens: Bytes)
    ensures FindToken(s, |s|, tokens) == |s|
  {}

  // ---- the end of a string literal ----

  /** The position after the closing quote; `esc` tells that the byte at i is escaped. */
  function QuoteEnd(s: Bytes, i: nat, esc: bool): (r: Option<nat>)
    ensures r.Some? ==> i < r.value <= |s| && s[r.value - 1] == QUOTE
    decreases |s| - i
  {
    if i >= |s| then None
    else if esc then QuoteEnd(s, i + 1, false)
    else if s[i] == QUOTE then Some(i + 1)
    else QuoteEnd(s, i + 1, s[i] == BACKSLASH)
  }

  /** No unescaped quote lies among the next j bytes of the block. */
  lemma {:induction false} QuoteRun(s: Bytes, i: nat, esc: bool, block: Bytes, j: nat)
    requires j <= |block| && i + j <= |s| && forall k :: 0 <= k < j ==> block[k] == s[i + k]
    requires forall k: nat :: k < j && block[k] == QUOTE ==> After(State(false, esc), block, k).escaped
    ensures QuoteEnd(s, i, esc) == QuoteEnd(s, i + j, After(State(false, esc), block, j).escaped)
    decreases j
  {
    if j > 0 {
      QuoteRun(s, i, esc, block, j - 1);
      var st := After(State(false, esc), block, j - 1);
      assert After(State(false, esc), block, j) == Next(st, block[j - 1]);
      assert block[j - 1] == s[i + (j - 1)];
    }
  }

  /** The escape carry out of a 32-byte block. */
  function GetEscapedCarry32(prev: word, backslash: word): word {
    var odd: word := 0xAAAA_AAAA_AAAA_AAAA;
    var w := backslash & !prev;
    ((((((w << 1) | odd) - w) ^ odd) & backslash) >> 31) & 1
  }

  lemma RawCarry32(prev: word, backslash: word)
    requires prev <= 1
    ensures var r := GetEscapedBits(prev, backslash);
            GetEscapedCarry32(prev, backslash) == ((backslash & !r) >> 31) & 1
  {}

  lemma RawShift31(x: word)
    ensures Half(Eighth(Nine(Nine(Nine(x))))) == x >> 31
  {
    calc {
      Half(Eighth(Nine(Nine(Nine(x)))));
      Half(Eighth(Nine(Nine(x >> 9))));
      Half(Eighth(Nine(x >> 9 >> 9)));
      Half(Eighth(x >> 9 >> 9 >> 9));
      Half(x >> 9 >> 9 >> 9 >> 3);
      x >> 9 >> 9 >> 9 >> 3 >> 1;
      x >> 31;
    }
  }

  lemma Shr31(x: word, k: nat)
    requires k == 31
    ensures Shr(x, k) == x >> 31
  {
    hide Shr, Nine, Eighth, Half;
    var a := Nine(x);
    var b := Nine(a);
    var c := Nine(b);
    ShrNine(x, k);
    ShrNine(a, k - 9);
    ShrNine(b, k - 18);
    ShrThree(c, k - 27);
    ShrOne(Eighth(c), k - 30);
    RawShift31(x);
  }

  lemma ShrOne(x: word, k: int)
    requires k == 1
    ensures Shr(x, k) == Half(x)
  {
    ShrNone(Half(x), 0);
  }

  lemma RawLow(x: word)
    ensures x & 1 == Carry(Low(x))
  {}

  lemma CarryIsBit31(prev: bool, backslash: word)
    ensures var r := GetEscapedBits(Carry(prev), backslash);
            GetEscapedCarry32(Carry(prev), backslash) == Carry(Bit(backslash, 31) && !Bit(r, 31))
  {
    hide GetEscapedBits, GetEscapedCarry32, Bit, And, Not, Low, Shr;
    var r := GetEscapedBits(Carry(prev), backslash);
    var x := And(backslash, Not(r));
    RawCarry32(Carry(prev), backslash);
    AndNot(backslash, r);
    Shr31(x, 31);
    BitIsLow(x, 31);
    RawLow(x >> 31);
    BitAnd(backslash, Not(r), 31);
    BitNot(r, 31);
  }

  lemma AndNot(x: word, r: word)
    ensures x & !r == And(x, Not(r))
  {
    calc {
      x & !r;
      And(x, !r);
      And(x, Not(r));
    }
  }

  /** The backslashes and quotes of 32 bytes, and which of the bytes are escaped. */
  ghost predicate Examined(bs: word, quote: word, r: word, block: Bytes, esc: bool) {
    && |block| == VEC_LEN
    && (forall i: nat :: i < BLOCK ==> (Bit(bs, i) <==> i < VEC_LEN && block[i] == BACKSLASH))
    && (forall i: nat :: i < BLOCK ==> (Bit(quote, i) <==> i < VEC_LEN && block[i] == QUOTE))
    && (forall i: nat :: i < VEC_LEN ==> (Bit(r, i) <==> After(State(false, esc), block, i).escaped))
  }

  lemma Examine(block: Bytes, esc: bool)
    requires |block| == VEC_LEN
    ensures var bs := Eq(block, BACKSLASH);
            var r := GetEscapedBits(Carry(esc), bs);
            Examined(bs, Eq(block, QUOTE), r, block, esc) &&
            GetEscapedCarry32(Carry(esc), bs) == Carry(After(State(false, esc), block, VEC_LEN).escaped)
  {
    hide Bit, Eq, GetEscapedBits, GetEscapedCarry32, Carry, Solves;
    var bs := Eq(block, BACKSLASH);
    var r := GetEscapedBits(Carry(esc), bs);
    var st := State(false, esc);
    EscapedEquation(esc, bs);
    forall i: nat | i < BLOCK
      ensures Bit(bs, i) <==> i < VEC_LEN && block[i] == BACKSLASH
      ensures Bit(Eq(block, QUOTE), i) <==> i < VEC_LEN && block[i] == QUOTE
    {
      EqBit(block, BACKSLASH, i);
      EqBit(block, QUOTE, i);
    }
    forall i: nat | i < VEC_LEN
      ensures Bit(r, i) <==> After(st, block, i).escaped
    {
      EscapedIsState(r, st, block, i);
    }
    CarryIsBit31(esc, bs);
    LastEscaped(st, block, VEC_LEN);
  }

  lemma LastEscaped(st: State, block: Bytes, n: nat)
    requires 0 < n <= |block|
    ensures After(st, block, n).escaped == (!After(st, block, n - 1).escaped && block[n - 1] == BACKSLASH)
  {}

  /** Without a backslash nothing is escaped. */
  lemma {:induction false} NoneEscaped(st: State, block: Bytes, j: nat)
    requires j <= |block| && !st.escaped && forall k :: 0 <= k < j ==> block[k] != BACKSLASH
    ensures forall k: nat :: k <= j ==> !After(st, block, k).escaped
    decreases j
  {
    if j > 0 {
      NoneEscaped(st, block, j - 1);
      LastEscaped(st, block, j);
    }
  }

  /** The position of the lowest bit of `quotes`, which are the unescaped quotes up to there. */
  ghost predicate FirstQuote(quotes: word, block: Bytes, esc: bool) {
    |block| == VEC_LEN &&
    if quotes == 0 then forall k: nat :: k < VEC_LEN && block[k] == QUOTE ==> After(State(false, esc), block, k).escaped
    else
      var t := TrailingZeroes(quotes);
      t < VEC_LEN && block[t] == QUOTE && !After(State(false, esc), block, t).escaped &&
      forall k: nat :: k < t && block[k] == QUOTE ==> After(State(false, esc), block, k).escaped
  }

  /** The branch that computes the escapes. */
  lemma EscapedQuotes(bs: word, quote: word, r: word, block: Bytes, esc: bool)
    requires Examined(bs, quote, r, block, esc)
    ensures FirstQuote(And(quote, Not(r)), block, esc)
  {
    hide Bit, And, Not, After, TrailingZeroes;
    var q := And(quote, Not(r));
    forall k: nat | k < VEC_LEN
      ensures Bit(q, k) <==> block[k] == QUOTE && !After(State(false, esc), block, k).escaped
    {
      BitAnd(quote, Not(r), k);
      BitNot(r, k);
    }
    if q == 0 {
      forall k: nat | k < VEC_LEN
        ensures !Bit(q, k)
      {
        ZeroBit(k);
      }
    } else {
      LowestBit(q);
      BitAnd(quote, Not(r), TrailingZeroes(q));
    }
  }

  /** How far into the block the literal goes. */
  function Reach(quotes: word): nat { if quotes == 0 then VEC_LEN else TrailingZeroes(quotes) }

  /** The branch that does not: no backslash stands before the first quote. */
  lemma PlainQuotes(bs: word, quote: word, r: word, block: Bytes)
    requires Examined(bs, quote, r, block, false) && And(Dec(quote), bs) == 0
    ensures FirstQuote(quote, block, false)
    ensures quote == 0 ==> !After(State(false, false), block, VEC_LEN).escaped
    ensures quote != 0 ==> TrailingZeroes(quote) < VEC_LEN
    ensures Reach(quote) <= VEC_LEN && NoBackslashIn(block, 0, Reach(quote))
  {
    hide Bit, And, Dec, After, TrailingZeroes;
    var t := Reach(quote);
    if quote != 0 {
      LowestBit(quote);
    }
    forall k: nat | k < VEC_LEN
      ensures quote == 0 ==> !Bit(quote, k)
    {
      ZeroBit(k);
    }
    forall k: nat | k < t
      ensures block[k] != BACKSLASH
    {
      ZeroBit(k);
      BelowLowest(quote, bs, k);
    }
    NoneEscaped(State(false, false), block, t);
  }

  datatype Status = Unclosed | Normal | Escaped

  predicate NoBackslashIn(s: Bytes, i: nat, j: nat) { i <= j <= |s| && forall k :: i <= k < j ==> s[k] != BACKSLASH }

  /** From after the opening quote to after the closing one.  Normal tells that no backslash was passed, Escaped
      that one was. */
  method SkipString(data: Bytes, start: nat) returns (status: Status, pos: nat)
    requires start <= |data|
    ensures match QuoteEnd(data, start, false)
            case None => status == Unclosed
            case Some(e) => status != Unclosed && pos == e && (status == Normal <==> NoBackslashIn(data, start, e - 1))
  {
    hide QuoteEnd, Carry, TrailingZeroes, After, NoBackslashIn, FirstQuote;
    pos := start;
    var prevEscaped: word := 0;
    var found := false;
    ghost var esc := false;
    FreshString(data, start);
    while pos + VEC_LEN <= |data|
      invariant start <= pos <= |data| && prevEscaped == Carry(esc)
      invariant QuoteEnd(data, start, false) == QuoteEnd(data, pos, esc)
      invariant !found ==> !esc && NoBackslashIn(data, start, pos)
      invariant found ==> !NoBackslashIn(data, start, pos)
    {
      var block := data[pos..pos + VEC_LEN];
      var quote;
      quote, prevEscaped, found := UnescapedQuotes(block, prevEscaped, found, data, start, pos, esc);
      if quote != 0 {
        BlockQuote(data, pos, esc, block, quote);
        return if found then Escaped else Normal, pos + TrailingZeroes(quote) + 1;
      }
      BlockNoQuote(data, pos, esc, block);
      esc := After(State(false, esc), block, VEC_LEN).escaped;
      pos := pos + VEC_LEN;
    }
    CarryIsZero(esc);
    TailStart(data, pos, esc);
    if prevEscaped != 0 {
      if pos < |data| {
        MoreBackslash(data, start, pos, pos + 1);
      }
      pos := pos + 1;
    }
    status, pos := SkipStringTail(data, start, pos, found);
  }

  /** The unescaped quotes of one block, up to the first; the escape carry and whether a backslash was seen. */
  method UnescapedQuotes(block: Bytes, prevEscaped: word, foundBefore: bool, ghost data: Bytes, ghost start: nat,
      ghost pos: nat, ghost esc: bool)
    returns (quote: word, escapedNext: word, found: bool)
    requires pos + VEC_LEN <= |data| && block == data[pos..pos + VEC_LEN] && prevEscaped == Carry(esc)
    requires start <= pos && (!foundBefore ==> !esc && NoBackslashIn(data, start, pos))
    requires foundBefore ==> !NoBackslashIn(data, start, pos)
    ensures FirstQuote(quote, block, esc)
    ensures var after := After(State(false, esc), block, VEC_LEN).escaped;
            quote == 0 ==> escapedNext == Carry(after) && (!found ==> !after)
    ensures !found <==> NoBackslashIn(data, start, pos + Reach(quote))
  {
    hide Bit, And, Not, Dec, Eq, GetEscapedBits, GetEscapedCarry32, QuoteEnd, Carry, TrailingZeroes, After,
      NoBackslashIn, FirstQuote, Examined, Reach;
    found := foundBefore;
    escapedNext := prevEscaped;
    var bs := Eq(block, BACKSLASH);
    quote := Eq(block, QUOTE);
    ghost var r := GetEscapedBits(prevEscaped, bs);
    Examine(block, esc);
    CarryIsZero(esc);
    if And(Dec(quote), bs) != 0 || prevEscaped != 0 {
      EscapedQuotes(bs, quote, r, block, esc);
      BackslashSeen(data, start, pos, block, bs, quote, r, esc, foundBefore);
      quote := And(quote, Not(GetEscapedBits(prevEscaped, bs)));
      escapedNext := GetEscapedCarry32(prevEscaped, bs);
      found := true;
    } else {
      PlainQuotes(bs, quote, r, block);
      CarryIsZero(After(State(false, esc), block, VEC_LEN).escaped);
      if found {
        MoreBackslash(data, start, pos, pos + Reach(quote));
      } else {
        PlainSoFar(data, start, pos, block, Reach(quote));
      }
    }
  }

  /** The last bytes, one at a time. */
  method SkipStringTail(data: Bytes, ghost start: nat, from: nat, foundBefore: bool) returns (status: Status, pos: nat)
    requires start <= |data| && start <= from && QuoteEnd(data, start, false) == QuoteEnd(data, from, false)
    requires !foundBefore ==> NoBackslashIn(data, start, from)
    requires foundBefore ==> from <= |data| ==> !NoBackslashIn(data, start, from)
    ensures match QuoteEnd(data, start, false)
            case None => status == Unclosed
            case Some(e) => status != Unclosed && pos == e && (status == Normal <==> NoBackslashIn(data, start, e - 1))
  {
    pos := from;
    var found := foundBefore;
    while pos < |data|
      invariant start <= pos && QuoteEnd(data, start, false) == QuoteEnd(data, pos, false)
      invariant !found ==> NoBackslashIn(data, start, pos)
      invariant found ==> pos <= |data| ==> !NoBackslashIn(data, start, pos)
      decreases |data| - pos
    {
      if data[pos] == BACKSLASH {
        if pos + 1 >= |data| {
          return Unclosed, pos;
        }
        found := true;
        pos := pos + 2;
      } else {
        pos := pos + 1;
        if data[pos - 1] == QUOTE {
          return if found then Escaped else Normal, pos;
        }
      }
    }
    status := Unclosed;
  }

  lemma MoreBackslash(s: Bytes, i: nat, j: nat, k: nat)
    requires !NoBackslashIn(s, i, j) && i <= j <= k <= |s|
    ensures !NoBackslashIn(s, i, k)
  {}

  lemma BackslashAt(s: Bytes, i: nat, k: nat, j: nat)
    requires i <= k < j <= |s| && s[k] == BACKSLASH
    ensures !NoBackslashIn(s, i, j)
  {}

  /** The branch that computes the escapes is taken for a backslash before the first quote of the block, or for
      one at the end of the block before. */
  lemma BackslashSeen(data: Bytes, start: nat, pos: nat, block: Bytes, bs: word, quote: word, r: word, esc: bool,
      foundBefore: bool)
    requires pos + VEC_LEN <= |data| && block == data[pos..pos + VEC_LEN] && start <= pos
    requires Examined(bs, quote, r, block, esc) && (esc ==> foundBefore)
    requires foundBefore ==> !NoBackslashIn(data, start, pos)
    requires And(Dec(quote), bs) != 0 || esc
    ensures Reach(And(quote, Not(r))) <= VEC_LEN && !NoBackslashIn(data, start, pos + Reach(And(quote, Not(r))))
  {
    hide Bit, And, Dec, Not, After, TrailingZeroes, NoBackslashIn;
    var q, x := And(quote, Not(r)), And(Dec(quote), bs);
    QuoteReach(bs, quote, r, block, esc);
    if foundBefore {
      MoreBackslash(data, start, pos, pos + Reach(q));
    } else {
      var k := TrailingZeroes(x);
      LowestBit(x);
      BelowLowest(quote, bs, k);
      assert data[pos + k] == block[k] == BACKSLASH;
      BackslashAt(data, start, pos + k, pos + Reach(q));
    }
  }

  /** The first unescaped quote is not before the first quote. */
  lemma QuoteReach(bs: word, quote: word, r: word, block: Bytes, esc: bool)
    requires Examined(bs, quote, r, block, esc)
    ensures var q := And(quote, Not(r));
            Reach(q) <= VEC_LEN &&
            forall k: nat :: Bit(bs, k) && k < BLOCK && (quote == 0 || k < TrailingZeroes(quote)) ==> k < Reach(q)
  {
    hide Bit, And, Not, After, TrailingZeroes;
    var q := And(quote, Not(r));
    if q != 0 {
      var t := TrailingZeroes(q);
      LowestBit(q);
      BitAnd(quote, Not(r), t);
      if quote != 0 {
        LowestBit(quote);
      } else {
        ZeroBit(t);
      }
    }
  }

  lemma FreshString(s: Bytes, i: nat)
    requires i <= |s|
    ensures NoBackslashIn(s, i, i) && Carry(false) == 0
  {}

  lemma CarryIsZero(b: bool)
    ensures Carry(b) == 0 <==> !b
  {}

  lemma TailStart(s: Bytes, i: nat, esc: bool)
    requires i <= |s|
    ensures QuoteEnd(s, i, esc) == QuoteEnd(s, if esc then i + 1 else i, false)
  {}

  lemma PlainSoFar(s: Bytes, start: nat, pos: nat, block: Bytes, t: nat)
    requires |block| == VEC_LEN && pos + VEC_LEN <= |s| && block == s[pos..pos + VEC_LEN]
    requires NoBackslashIn(s, start, pos) && NoBackslashIn(block, 0, t)
    ensures NoBackslashIn(s, start, pos + t)
  {
    forall k | pos <= k < pos + t
      ensures s[k] != BACKSLASH
    {
      assert s[k] == block[k - pos];
    }
  }

  lemma BlockQuote(s: Bytes, pos: nat, esc: bool, block: Bytes, quotes: word)
    requires pos + VEC_LEN <= |s| && block == s[pos..pos + VEC_LEN] && quotes != 0 && FirstQuote(quotes, block, esc)
    ensures QuoteEnd(s, pos, esc) == Some(pos + TrailingZeroes(quotes) + 1)
  {
    hide After, TrailingZeroes;
    var t := TrailingZeroes(quotes);
    QuoteRun(s, pos, esc, block, t);
    assert s[pos + t] == block[t];
  }

  lemma BlockNoQuote(s: Bytes, pos: nat, esc: bool, block: Bytes)
    requires pos + VEC_LEN <= |s| && block == s[pos..pos + VEC_LEN] && FirstQuote(0, block, esc)
    ensures QuoteEnd(s, pos, esc) == QuoteEnd(s, pos + VEC_LEN, After(State(false, esc), block, VEC_LEN).escaped)
  {
    hide After;
    QuoteRun(s, pos, esc, block, VEC_LEN);
  }
}
