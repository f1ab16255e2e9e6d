/** Reading up to 16 digits with three multiply-add steps over a 16-byte vector. */
module Str2Int {
  import opened Digits
  import opened Json
  import opened Bits
  import opened StringMask

  /** The value of the lanes x in base b, most significant first. */
  function Horner(x: seq<nat>, b: nat): nat {
    if x == [] then 0 else b * Horner(x[..|x| - 1], b) + x[|x| - 1]
  }

  /** The multiply-add instruction: neighbouring lanes x, y become x * b + y. */
  function MultiplyAdd(x: seq<nat>, b: nat): (r: seq<nat>)
    requires |x| % 2 == 0
    ensures |r| == |x| / 2
  {
    if x == [] then [] else MultiplyAdd(x[..|x| - 2], b) + [x[|x| - 2] * b + x[|x| - 1]]
  }

  /** What the lanes can hold: the products of a step stay below the base of the next. */
  lemma {:induction false} MultiplyAddFits(x: seq<nat>, b: nat)
    requires |x| % 2 == 0 && b > 0 && forall j :: 0 <= j < |x| ==> x[j] < b
    ensures forall k :: 0 <= k < |MultiplyAdd(x, b)| ==> MultiplyAdd(x, b)[k] < b * b
  {
    if x != [] {
      var n := |x|;
      MultiplyAddFits(x[..n - 2], b);
      LaneFits(x[n - 2], x[n - 1], b);
    }
  }

  lemma LaneFits(x: nat, y: nat, b: nat)
    requires x < b && y < b
    ensures x * b + y < b * b
  {
    assert (x + 1) * b == x * b + b;
    assert (b - (x + 1)) * b >= 0;
  }

  lemma HornerStep(h: nat, b: nat, x: nat, y: nat)
    ensures b * (b * h + x) + y == (b * b) * h + (x * b + y)
  {
    assert b * (b * h + x) == b * (b * h) + b * x;
    assert b * (b * h) == (b * b) * h;
  }

  /** Halving the number of lanes and squaring the base keeps the value. */
  lemma {:induction false} MultiplyAddKeeps(x: seq<nat>, b: nat)
    requires |x| % 2 == 0
    ensures Horner(MultiplyAdd(x, b), b * b) == Horner(x, b)
  {
    if x != [] {
      var c, n := x[..|x| - 2], |x|;
      MultiplyAddKeeps(c, b);
      var r := MultiplyAdd(x, b);
      assert r[..|r| - 1] == MultiplyAdd(c, b);
      assert x[..n - 1][..n - 2] == c;
      HornerStep(Horner(c, b), b, x[n - 2], x[n - 1]);
      assert Horner(x[..n - 1], b) == b * Horner(c, b) + x[n - 2];
    }
  }

  lemma {:induction false} HornerDigits(d: seq<digit>)
    ensures Horner(d, 10) == NatOf(d)
  {
    if d != [] {
      HornerDigits(d[..|d| - 1]);
    }
  }

  lemma {:induction false} HornerLeadingZero(x: seq<nat>, b: nat)
    ensures Horner([0] + x, b) == Horner(x, b)
  {
    if x == [] {
      assert [0] + x == [0];
      assert [0][..0] == [];
      assert Horner([0], b) == b * Horner([], b) + 0;
    } else {
      HornerLeadingZero(x[..|x| - 1], b);
      var y := [0] + x;
      assert y[..|y| - 1] == [0] + x[..|x| - 1];
    }
  }

  function Zeros(n: nat): (z: seq<nat>)
    ensures |z| == n && forall k :: 0 <= k < n ==> z[k] == 0
  {
    seq(n, _ => 0)
  }

  lemma {:induction false} HornerZeros(n: nat, x: seq<nat>, b: nat)
    ensures Horner(Zeros(n) + x, b) == Horner(x, b)
  {
    if n == 0 {
      assert Zeros(0) + x == x;
    } else {
      HornerZeros(n - 1, x, b);
      assert Zeros(n) + x == [0] + (Zeros(n - 1) + x);
      HornerLeadingZero(Zeros(n - 1) + x, b);
    }
  }

  lemma HornerTwo(x: seq<nat>, b: nat)
    requires |x| == 2
    ensures Horner(x, b) == x[0] * b + x[1]
  {
    assert x[..1][..0] == [];
    assert Horner(x[..1], b) == b * Horner(x[..1][..0], b) + x[0];
    assert b * Horner([], b) == 0;
  }

  /** Leading zero lanes can be left out. */
  lemma HornerTail(x: seq<nat>, k: nat, b: nat)
    requires k <= |x| && forall j :: 0 <= j < k ==> x[j] == 0
    ensures Horner(x, b) == Horner(x[k..], b)
  {
    assert x == Zeros(k) + x[k..];
    HornerZeros(k, x[k..], b);
  }

  /** Leading zero lanes stay zero. */
  lemma {:induction false} MultiplyAddZeros(x: seq<nat>, b: nat, k: nat)
    requires |x| % 2 == 0 && 2 * k <= |x| && forall j :: 0 <= j < 2 * k ==> x[j] == 0
    ensures forall j :: 0 <= j < k ==> MultiplyAdd(x, b)[j] == 0
  {
    if |x| > 2 * k {
      MultiplyAddZeros(x[..|x| - 2], b, k);
    } else if x != [] {
      MultiplyAddZeros(x[..|x| - 2], b, k - 1);
      assert 0 * b == 0;
    }
  }

  const LANES := 16

  /** The bytes of a vector that are not digits, as a bit mask. */
  function NonDigits(v: Bytes): word { Mask(v, (c: byte) => !IsDigit(c)) }

  /** The leading digits of the vector, at most `limit` of them, and their value. */
  method SimdStr2int(v: Bytes, limit: nat) returns (value: nat, manNd: nat)
    requires |v| == LANES
    ensures manNd <= limit && manNd <= LANES && forall k :: 0 <= k < manNd ==> IsDigit(v[k])
    ensures manNd < limit && manNd < LANES ==> !IsDigit(v[manNd])
    ensures value == NatOf(DigitsOfText(v[..manNd]))
  {
    hide NonDigits, TrailingZeroes;
    var numEnd := LANES;
    var ends := NonDigits(v);
    FirstEnd(v);
    if ends != 0 {
      numEnd := TrailingZeroes(ends);
    }
    manNd := if limit < numEnd then limit else numEnd;
    value := TreeValue(v[..manNd]);
  }

  lemma FirstEnd(v: Bytes)
    requires |v| == LANES
    ensures var e := if NonDigits(v) == 0 then LANES else TrailingZeroes(NonDigits(v));
            e <= LANES && (forall k :: 0 <= k < e ==> IsDigit(v[k])) && (e < LANES ==> !IsDigit(v[e]))
  {
    hide Bit, TrailingZeroes, NonDigits, IsDigit;
    var w := NonDigits(v);
    forall k: nat | k < 64
      ensures Bit(w, k) <==> k < LANES && !IsDigit(v[k])
    {
      NonDigitBit(v, k);
    }
    if w != 0 {
      LowestBit(w);
    }
    forall k: nat | k < LANES
      ensures w == 0 ==> IsDigit(v[k])
    {
      ZeroBit(k);
    }
  }

  lemma NonDigitBit(v: Bytes, k: nat)
    requires k < 64
    ensures Bit(NonDigits(v), k) <==> k < |v| && !IsDigit(v[k])
  {
    hide Bit, Mask;
    MaskBit(v, (c: byte) => !IsDigit(c), k);
  }

  /** The widest value of a lane.  The steps leave at most 99 in 16 bits, 9999 in 16 bits after packing
      and 99999999 in 32 bits, so no instruction saturates or wraps. */
  predicate FitIn(lanes: seq<nat>, most: nat) { forall k :: 0 <= k < |lanes| ==> lanes[k] <= most }

  /** The multiply-add tree over the digits, shifted to the end of the vector. */
  method TreeValue(t: Bytes) returns (value: nat)
    requires |t| <= LANES && forall k :: 0 <= k < |t| ==> IsDigit(t[k])
    ensures value == NatOf(DigitsOfText(t))
  {
    hide Horner, MultiplyAdd, NatOf;
    var d := DigitsOfText(t);
    HornerDigits(d);
    if |d| == 0 {
      EmptyValue();
      return 0;
    }
    if |d| == 1 {
      OneDigit(d);
      return d[0];
    }
    if |d| == 2 {
      HornerTwo(d, 10);
      var a: nat, b: nat := d[0], d[1];
      return a * 10 + b;
    }
    var z := LANES - |d|;
    var data: seq<nat> := Zeros(z) + d;
    HornerZeros(z, d, 10);
    var words := MultiplyAdd(data, 10);
    MultiplyAddKeeps(data, 10);
    MultiplyAddFits(data, 10);
    assert FitIn(words, 99);
    if |d| <= 4 {
      MultiplyAddZeros(data, 10, 6);
      HornerTail(words, 6, 100);
      HornerTwo(words[6..], 100);
      return words[6] * 100 + words[7];
    }
    var dwords := MultiplyAdd(words, 100);
    MultiplyAddKeeps(words, 100);
    MultiplyAddFits(words, 100);
    assert FitIn(dwords, 9999);
    if |d| <= 8 {
      MultiplyAddZeros(data, 10, 4);
      MultiplyAddZeros(words, 100, 2);
      HornerTail(dwords, 2, 10000);
      HornerTwo(dwords[2..], 10000);
      return dwords[2] * 10000 + dwords[3];
    }
    var quads := MultiplyAdd(dwords, 10000);
    MultiplyAddKeeps(dwords, 10000);
    MultiplyAddFits(dwords, 10000);
    assert FitIn(quads, 99999999);
    HornerTwo(quads, 100000000);
    return quads[0] * 100000000 + quads[1];
  }

  lemma EmptyValue()
    ensures NatOf([]) == 0
  {}

  lemma OneDigit(d: seq<digit>)
    requires |d| == 1
    ensures NatOf(d) == d[0]
  {
    assert d[..0] == [];
    assert NatOf(d[..0]) == 0;
  }
}
