/** Which bytes of a block lie inside string literals, 64 at a time.  The masks carried from block
    to block equal, bit for bit, a byte-at-a-time automaton.  A vector load followed by a comparison
    and `to_bitmask` is `Mask`: bit i is the predicate on byte i. */
module StringMask {
  import opened Json
  import opened Bits

  const BLOCK := 64

  function Carry(b: bool): word { if b then 1 else 0 }

  function Mask(block: Bytes, p: byte -> bool): word {
    if block == [] then 0 else Or(Shl(Mask(block[1..], p)), Carry(p(block[0])))
  }

  lemma {:induction false} MaskBit(block: Bytes, p: byte -> bool, i: nat)
    requires i < 64
    ensures Bit(Mask(block, p), i) <==> i < |block| && p(block[i])
    decreases i
  {
    hide Bit, Or, Shl, Carry;
    if block == [] {
      ZeroBit(i);
    } else {
      var rest := Mask(block[1..], p);
      BitOr(Shl(rest), Carry(p(block[0])), i);
      BitShl(rest, i);
      CarryBit(p(block[0]), i);
      if i > 0 {
        MaskBit(block[1..], p, i - 1);
      }
    }
  }

  lemma CarryBit(b: bool, i: nat)
    ensures Bit(Carry(b), i) <==> i == 0 && b
  {
    if i > 0 {
      assert Half(Carry(b)) == 0;
      ZeroBit(i - 1);
    }
  }

  function Eq(block: Bytes, c: byte): word { Mask(block, b => b == c) }

  lemma EqBit(block: Bytes, c: byte, i: nat)
    requires i < 64
    ensures Bit(Eq(block, c), i) <==> i < |block| && block[i] == c
  {
    MaskBit(block, b => b == c, i);
  }

  // ---- the automaton ----

  /** Inside a string literal; after an unpaired backslash. */
  datatype State = State(inString: bool, escaped: bool)

  function Next(st: State, c: byte): State {
    State(st.inString != (c == QUOTE && !st.escaped), !st.escaped && c == BACKSLASH)
  }

  /** The state after the first k bytes. */
  function After(st: State, block: Bytes, k: nat): State
    requires k <= |block|
  {
    if k == 0 then st else Next(After(st, block, k - 1), block[k - 1])
  }

  // ---- escaped characters ----

  function GetEscapedBits(prev: word, backslash: word): word {
    var odd: word := 0xAAAA_AAAA_AAAA_AAAA;
    var w := backslash & !prev;
    ((((w << 1) | odd) - w) ^ odd) ^ (backslash | prev)
  }

  function GetEscapedCarry(prev: word, backslash: word): word {
    var odd: word := 0xAAAA_AAAA_AAAA_AAAA;
    var w := backslash & !prev;
    ((((((w << 1) | odd) - w) ^ odd) & backslash) >> 63) & 1
  }

  lemma RawEquation(prev: word, backslash: word)
    requires prev <= 1
    ensures var r := GetEscapedBits(prev, backslash); r == ((backslash & !r) << 1) | prev
  {}

  lemma RawCarry(prev: word, backslash: word)
    requires prev <= 1
    ensures var r := GetEscapedBits(prev, backslash);
            GetEscapedCarry(prev, backslash) == ((backslash & !r) >> 63)
  {}

  /** r is the set of escaped bytes: those after a backslash that is not escaped. */
  predicate Solves(r: word, prev: bool, backslash: word) {
    r == Or(Shl(And(backslash, Not(r))), Carry(prev))
  }

  lemma Named(x: word, r: word, c: word)
    ensures ((x & !r) << 1) | c == Or(Shl(And(x, Not(r))), c)
  {
    calc {
      ((x & !r) << 1) | c;
      Or((x & !r) << 1, c);
      Or(Shl(x & !r), c);
      Or(Shl(And(x, !r)), c);
      Or(Shl(And(x, Not(r))), c);
    }
  }

  /** The subtraction that carries through runs of backslashes solves the equation. */
  lemma EscapedEquation(prev: bool, backslash: word)
    ensures Solves(GetEscapedBits(Carry(prev), backslash), prev, backslash)
  {
    hide GetEscapedBits, And, Or, Not, Shl;
    RawEquation(Carry(prev), backslash);
    Named(backslash, GetEscapedBits(Carry(prev), backslash), Carry(prev));
  }

  lemma CarryIsTop(prev: bool, backslash: word)
    ensures var r := GetEscapedBits(Carry(prev), backslash);
            GetEscapedCarry(Carry(prev), backslash) == Top(And(backslash, Not(r)))
  {
    hide GetEscapedBits, GetEscapedCarry;
    var r := GetEscapedBits(Carry(prev), backslash);
    RawCarry(Carry(prev), backslash);
    calc {
      (backslash & !r) >> 63;
      Top(backslash & !r);
      Top(And(backslash, !r));
      Top(And(backslash, Not(r)));
    }
  }

  lemma TopLow(x: word)
    ensures Top(x) == Carry(Low(Top(x)))
  {}

  lemma TopBit(x: word)
    ensures Top(x) == Carry(Bit(x, 63))
  {
    hide Bit, Shr, Low, Top, Carry;
    ShrTop(x, 63);
    BitIsLow(x, 63);
    TopLow(x);
  }

  lemma EscapedBit(r: word, prev: bool, backslash: word, i: nat)
    requires i < 64 && Solves(r, prev, backslash)
    ensures Bit(r, i) <==> if i == 0 then prev else Bit(backslash, i - 1) && !Bit(r, i - 1)
  {
    hide Bit, And, Or, Shl, Not, Carry;
    var free := And(backslash, Not(r));
    BitOr(Shl(free), Carry(prev), i);
    BitShl(free, i);
    CarryBit(prev, i);
    if i > 0 {
      BitAnd(backslash, Not(r), i - 1);
      BitNot(r, i - 1);
    }
  }

  lemma {:induction false} EscapedIsState(r: word, st: State, block: Bytes, i: nat)
    requires i <= |block| <= BLOCK && i < BLOCK
    requires Solves(r, st.escaped, Eq(block, BACKSLASH))
    ensures Bit(r, i) <==> After(st, block, i).escaped
    decreases i
  {
    hide Bit, Eq, Solves;
    EscapedBit(r, st.escaped, Eq(block, BACKSLASH), i);
    if i > 0 {
      EscapedIsState(r, st, block, i - 1);
      EqBit(block, BACKSLASH, i - 1);
    }
  }

  // ---- prefix exclusive-or ----

  function X1(x: word): word { x ^ (x << 1) }
  function X2(x: word): word { x ^ (x << 2) }
  function X4(x: word): word { x ^ (x << 4) }
  function X8(x: word): word { x ^ (x << 8) }
  function X16(x: word): word { x ^ (x << 16) }
  function X32(x: word): word { x ^ (x << 32) }

  /** Six doubling steps. */
  function PrefixXor(x: word): word { X32(X16(X8(X4(X2(X1(x)))))) }

  lemma RawSquare1(x: word)
    ensures (x ^ (x << 1)) ^ ((x ^ (x << 1)) << 1) == x ^ (x << 2)
  {}

  lemma Square1(x: word)
    ensures X1(X1(x)) == X2(x)
  {
    calc {
      X1(X1(x));
      X1(x ^ (x << 1));
      (x ^ (x << 1)) ^ ((x ^ (x << 1)) << 1);
      { RawSquare1(x); }
      x ^ (x << 2);
    }
  }

  lemma RawSquare2(x: word)
    ensures (x ^ (x << 2)) ^ ((x ^ (x << 2)) << 2) == x ^ (x << 4)
  {}

  lemma Square2(x: word)
    ensures X2(X2(x)) == X4(x)
  {
    calc {
      X2(X2(x));
      X2(x ^ (x << 2));
      (x ^ (x << 2)) ^ ((x ^ (x << 2)) << 2);
      { RawSquare2(x); }
      x ^ (x << 4);
    }
  }

  lemma RawSquare4(x: word)
    ensures (x ^ (x << 4)) ^ ((x ^ (x << 4)) << 4) == x ^ (x << 8)
  {}

  lemma Square4(x: word)
    ensures X4(X4(x)) == X8(x)
  {
    calc {
      X4(X4(x));
      X4(x ^ (x << 4));
      (x ^ (x << 4)) ^ ((x ^ (x << 4)) << 4);
      { RawSquare4(x); }
      x ^ (x << 8);
    }
  }

  lemma RawSquare8(x: word)
    ensures (x ^ (x << 8)) ^ ((x ^ (x << 8)) << 8) == x ^ (x << 16)
  {}

  lemma Square8(x: word)
    ensures X8(X8(x)) == X16(x)
  {
    calc {
      X8(X8(x));
      X8(x ^ (x << 8));
      (x ^ (x << 8)) ^ ((x ^ (x << 8)) << 8);
      { RawSquare8(x); }
      x ^ (x << 16);
    }
  }

  lemma RawSquare16(x: word)
    ensures (x ^ (x << 16)) ^ ((x ^ (x << 16)) << 16) == x ^ (x << 32)
  {}

  lemma Square16(x: word)
    ensures X16(X16(x)) == X32(x)
  {
    calc {
      X16(X16(x));
      X16(x ^ (x << 16));
      (x ^ (x << 16)) ^ ((x ^ (x << 16)) << 16);
      { RawSquare16(x); }
      x ^ (x << 32);
    }
  }

  lemma RawSquare32(x: word)
    ensures (x ^ (x << 32)) ^ ((x ^ (x << 32)) << 32) == x
  {}

  lemma Square32(x: word)
    ensures X32(X32(x)) == x
  {
    calc {
      X32(X32(x));
      X32(x ^ (x << 32));
      (x ^ (x << 32)) ^ ((x ^ (x << 32)) << 32);
      { RawSquare32(x); }
      x;
    }
  }

  lemma RawCommute2(x: word)
    ensures (x ^ (x << 2)) ^ ((x ^ (x << 2)) << 1) == (x ^ (x << 1)) ^ ((x ^ (x << 1)) << 2)
  {}

  lemma Commute2(x: word)
    ensures X1(X2(x)) == X2(X1(x))
  {
    calc {
      X1(X2(x));
      X1(x ^ (x << 2));
      (x ^ (x << 2)) ^ ((x ^ (x << 2)) << 1);
      { RawCommute2(x); }
      (x ^ (x << 1)) ^ ((x ^ (x << 1)) << 2);
      X2(x ^ (x << 1));
      X2(X1(x));
    }
  }

  lemma RawCommute4(x: word)
    ensures (x ^ (x << 4)) ^ ((x ^ (x << 4)) << 1) == (x ^ (x << 1)) ^ ((x ^ (x << 1)) << 4)
  {}

  lemma Commute4(x: word)
    ensures X1(X4(x)) == X4(X1(x))
  {
    calc {
      X1(X4(x));
      X1(x ^ (x << 4));
      (x ^ (x << 4)) ^ ((x ^ (x << 4)) << 1);
      { RawCommute4(x); }
      (x ^ (x << 1)) ^ ((x ^ (x << 1)) << 4);
      X4(x ^ (x << 1));
      X4(X1(x));
    }
  }

  lemma RawCommute8(x: word)
    ensures (x ^ (x << 8)) ^ ((x ^ (x << 8)) << 1) == (x ^ (x << 1)) ^ ((x ^ (x << 1)) << 8)
  {}

  lemma Commute8(x: word)
    ensures X1(X8(x)) == X8(X1(x))
  {
    calc {
      X1(X8(x));
      X1(x ^ (x << 8));
      (x ^ (x << 8)) ^ ((x ^ (x << 8)) << 1);
      { RawCommute8(x); }
      (x ^ (x << 1)) ^ ((x ^ (x << 1)) << 8);
      X8(x ^ (x << 1));
      X8(X1(x));
    }
  }

  lemma RawCommute16(x: word)
    ensures (x ^ (x << 16)) ^ ((x ^ (x << 16)) << 1) == (x ^ (x << 1)) ^ ((x ^ (x << 1)) << 16)
  {}

  lemma Commute16(x: word)
    ensures X1(X16(x)) == X16(X1(x))
  {
    calc {
      X1(X16(x));
      X1(x ^ (x << 16));
      (x ^ (x << 16)) ^ ((x ^ (x << 16)) << 1);
      { RawCommute16(x); }
      (x ^ (x << 1)) ^ ((x ^ (x << 1)) << 16);
      X16(x ^ (x << 1));
      X16(X1(x));
    }
  }

  lemma RawCommute32(x: word)
    ensures (x ^ (x << 32)) ^ ((x ^ (x << 32)) << 1) == (x ^ (x << 1)) ^ ((x ^ (x << 1)) << 32)
  {}

  lemma Commute32(x: word)
    ensures X1(X32(x)) == X32(X1(x))
  {
    calc {
      X1(X32(x));
      X1(x ^ (x << 32));
      (x ^ (x << 32)) ^ ((x ^ (x << 32)) << 1);
      { RawCommute32(x); }
      (x ^ (x << 1)) ^ ((x ^ (x << 1)) << 32);
      X32(x ^ (x << 1));
      X32(X1(x));
    }
  }

  /** Each bit is the exclusive-or of its input bit and the result bit below it. */
  lemma PrefixXorEquation(x: word)
    ensures X1(PrefixXor(x)) == x
  {
    hide X1, X2, X4, X8, X16, X32;
    var a := X1(x);
    var b := X2(a);
    var c := X4(b);
    var d := X8(c);
    var e := X16(d);
    Commute2(a);
    Commute4(b);
    Commute8(c);
    Commute16(d);
    Commute32(e);
    Square1(x);
    Square2(x);
    Square4(x);
    Square8(x);
    Square16(x);
    Square32(x);
  }

  lemma X1IsXor(x: word)
    ensures X1(x) == Xor(x, Shl(x))
  {
    calc {
      X1(x);
      x ^ (x << 1);
      Xor(x, x << 1);
      Xor(x, Shl(x));
    }
  }

  lemma PrefixXorBit(x: word, i: nat)
    requires i < 64
    ensures Bit(PrefixXor(x), i) <==> Bit(x, i) != (i > 0 && Bit(PrefixXor(x), i - 1))
  {
    hide Bit, PrefixXor, X1, Xor, Shl;
    var r := PrefixXor(x);
    PrefixXorEquation(x);
    X1IsXor(r);
    BitXor(r, Shl(r), i);
    BitShl(r, i);
  }

  // ---- string bits ----

  function Fill(b: bool): word { if b then ONES else 0 }

  lemma FillBit(b: bool, i: nat)
    requires i < 64
    ensures Bit(Fill(b), i) <==> b
  {
    hide Bit;
    OnesBit(i);
    ZeroBit(i);
  }

  lemma {:induction false} InStringIsState(q: word, r: word, st: State, block: Bytes, i: nat)
    requires |block| == BLOCK && i < BLOCK
    requires forall k: nat :: k < BLOCK ==> (Bit(r, k) <==> After(st, block, k).escaped)
    requires q == And(Eq(block, QUOTE), Not(r))
    ensures Bit(Xor(PrefixXor(q), Fill(st.inString)), i) <==> After(st, block, i + 1).inString
    decreases i
  {
    hide Bit, Eq, PrefixXor, Fill, And, Not, Xor;
    BitAnd(Eq(block, QUOTE), Not(r), i);
    BitNot(r, i);
    EqBit(block, QUOTE, i);
    PrefixXorBit(q, i);
    BitXor(PrefixXor(q), Fill(st.inString), i);
    FillBit(st.inString, i);
    if i > 0 {
      InStringIsState(q, r, st, block, i - 1);
      BitXor(PrefixXor(q), Fill(st.inString), i - 1);
      FillBit(st.inString, i - 1);
    }
  }

  /** The two carried words stand for the automaton's state. */
  predicate Carries(prevInString: word, prevEscaped: word, st: State) {
    prevInString == Fill(st.inString) && prevEscaped == Carry(st.escaped)
  }

  /** Copies of the sign bit: an arithmetic right shift by 63. */
  function SignFill(x: word): word { if x >= 0x8000_0000_0000_0000 then ONES else 0 }

  lemma SignIsTop(x: word)
    ensures SignFill(x) == Fill(Top(x) == 1) && Top(x) <= 1
  {}

  lemma SignBit(x: word)
    ensures SignFill(x) == Fill(Bit(x, 63))
  {
    hide Bit, Top, SignFill, Fill;
    TopBit(x);
    SignIsTop(x);
  }

  lemma {:induction false} EscapedIsStateAll(r: word, st: State, block: Bytes)
    requires |block| == BLOCK && Solves(r, st.escaped, Eq(block, BACKSLASH))
    ensures forall i: nat :: i < BLOCK ==> (Bit(r, i) <==> After(st, block, i).escaped)
    ensures Top(And(Eq(block, BACKSLASH), Not(r))) == Carry(After(st, block, BLOCK).escaped)
  {
    hide Bit, Eq, Solves, Top, And, Not, Carry;
    forall i: nat | i < BLOCK
      ensures Bit(r, i) <==> After(st, block, i).escaped
    {
      EscapedIsState(r, st, block, i);
    }
    TopBit(And(Eq(block, BACKSLASH), Not(r)));
    BitAnd(Eq(block, BACKSLASH), Not(r), 63);
    BitNot(r, 63);
    EqBit(block, BACKSLASH, 63);
    LastState(st, block);
  }

  lemma LastState(st: State, block: Bytes)
    requires |block| == BLOCK
    ensures After(st, block, BLOCK) == Next(After(st, block, 63), block[63])
  {}

  lemma InStringIsStateAll(s: word, r: word, st: State, block: Bytes)
    requires |block| == BLOCK
    requires forall k: nat :: k < BLOCK ==> (Bit(r, k) <==> After(st, block, k).escaped)
    requires s == Xor(PrefixXor(And(Eq(block, QUOTE), Not(r))), Fill(st.inString))
    ensures forall i: nat :: i < BLOCK ==> (Bit(s, i) <==> After(st, block, i + 1).inString)
    ensures SignFill(s) == Fill(After(st, block, BLOCK).inString)
  {
    hide Bit, Eq, PrefixXor, Fill, And, Not, Xor, SignFill, After;
    forall i: nat | i < BLOCK
      ensures Bit(s, i) <==> After(st, block, i + 1).inString
    {
      InStringIsState(And(Eq(block, QUOTE), Not(r)), r, st, block, i);
    }
    SignBit(s);
  }

  lemma NoBackslash(prev: bool)
    ensures Solves(Carry(prev), prev, 0) && Top(And(0, Not(Carry(prev)))) == 0
  {
    assert And(0, Not(Carry(prev))) == 0;
    assert Shl(0) == 0;
    assert Or(0, Carry(prev)) == Carry(prev);
  }

  /** One block: bit i of the result says whether the automaton is inside a string after byte i. */
  method GetStringBits(block: Bytes, prevInString: word, prevEscaped: word, ghost st: State)
    returns (inString: word, nextInString: word, nextEscaped: word)
    requires |block| == BLOCK && Carries(prevInString, prevEscaped, st)
    ensures forall i: nat :: i < BLOCK ==> (Bit(inString, i) <==> After(st, block, i + 1).inString)
    ensures Carries(nextInString, nextEscaped, After(st, block, BLOCK))
  {
    hide Bit, Eq, PrefixXor, GetEscapedBits, GetEscapedCarry, And, Not, Xor, Top, Solves, SignFill, Fill, Carry, After;
    var escaped: word;
    var backslash := Eq(block, BACKSLASH);
    if backslash != 0 {
      escaped, nextEscaped := GetEscapedBits(prevEscaped, backslash), GetEscapedCarry(prevEscaped, backslash);
      EscapedEquation(st.escaped, backslash);
      CarryIsTop(st.escaped, backslash);
    } else {
      escaped, nextEscaped := prevEscaped, 0;
      NoBackslash(st.escaped);
    }
    EscapedIsStateAll(escaped, st, block);
    var quote := And(Eq(block, QUOTE), Not(escaped));
    inString := Xor(PrefixXor(quote), prevInString);
    nextInString := SignFill(inString);
    InStringIsStateAll(inString, escaped, st, block);
  }
}
