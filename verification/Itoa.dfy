/** Writing integers: two digits at a time from a table, eight or sixteen at a time with reciprocal
    multiplications in vector lanes. */
module Itoa {
  import opened Options
  import opened Powers
  import opened Digits
  import opened Json

  /** The shortest spelling of n. */
  function Decimal(n: nat): (d: seq<digit>)
    ensures d != []
  {
    if n == 0 then [0] else DigitsOf(n)
  }

  /** Exactly k digits of n. */
  function Fixed(n: nat, k: nat): (d: seq<digit>)
    ensures |d| == k
  {
    if k == 0 then [] else Fixed(n / 10, k - 1) + [n % 10]
  }

  lemma {:induction false} DecimalReads(n: nat)
    ensures NatOf(Decimal(n)) == n && (Decimal(n)[0] == 0 ==> n == 0 && |Decimal(n)| == 1)
  {
    if n == 0 {
      assert NatOf([0][..0]) == 0;
    } else {
      DigitsOfReads(n);
      DigitsOfValue(n);
      hide Frac, Times;
    }
  }

  lemma {:induction false} DigitsOfReads(n: nat)
    ensures NatOf(DigitsOf(n)) == n
  {
    if n > 0 {
      DigitsOfReads(n / 10);
      var d := DigitsOf(n);
      assert d[..|d| - 1] == DigitsOf(n / 10);
    }
  }

  /** x % (10 * p) in terms of x / 10. */
  lemma ModTen(x: nat, p: nat)
    requires p > 0
    ensures x / (10 * p) == x / 10 / p && x % (10 * p) == 10 * (x / 10 % p) + x % 10
  {
    var q, r := x / 10, x % 10;
    var a, b := q / p, q % p;
    assert x == 10 * q + r && q == a * p + b;
    MulAssoc(a, 10, p);
    assert 10 * q == 10 * (a * p) + 10 * b;
    assert 10 * (a * p) == a * (10 * p) by { assert 10 * (a * p) == (10 * a) * p == a * (10 * p); }
    assert x == a * (10 * p) + (10 * b + r);
    assert 10 * b + r < 10 * p;
    Quotient(x, 10 * p, a, 10 * b + r);
  }

  lemma Quotient(x: nat, m: nat, q: nat, r: nat)
    requires m > 0 && x == q * m + r && r < m
    ensures x / m == q && x % m == r
  {
    if x / m < q {
      MulLeft(x / m + 1, q, m);
    } else if x / m > q {
      MulLeft(q + 1, x / m, m);
    }
  }

  /** The last k digits and the ones before them. */
  lemma {:induction false} DecimalSplit(n: nat, k: nat)
    requires n / Pow(10, k) > 0
    ensures Decimal(n) == Decimal(n / Pow(10, k)) + Fixed(n % Pow(10, k), k)
    decreases k
  {
    if k == 0 {
      assert Pow(10, 0) == 1;
      assert Decimal(n) + [] == Decimal(n);
    } else {
      var p := Pow(10, k - 1);
      assert Pow(10, k) == 10 * p;
      hide Pow;
      ModTen(n, p);
      PositiveQuotient(n / 10, p);
      DecimalSplit(n / 10, k - 1);
      assert Decimal(n) == Decimal(n / 10) + [n % 10];
      hide Decimal;
      Tenth(n % (10 * p), n / 10 % p, n % 10);
      Regroup(Decimal(n / 10 / p), Fixed(n / 10 % p, k - 1), [n % 10]);
    }
  }

  lemma PositiveQuotient(x: nat, p: nat)
    requires p > 0 && x / p > 0
    ensures x > 0
  {}

  lemma Tenth(r: nat, b: nat, c: nat)
    requires r == 10 * b + c && c < 10
    ensures r / 10 == b && r % 10 == c
  {}

  lemma Regroup(x: seq<digit>, y: seq<digit>, z: seq<digit>)
    ensures x + y + z == x + (y + z)
  {}

  lemma FixedStep(n: nat, k: nat)
    requires k > 0
    ensures Fixed(n, k) == Fixed(n / 10, k - 1) + [n % 10]
  {}

  /** One more digit on both sides. */
  lemma FixedJoin(n: nat, i: nat, j: nat, a: nat, b: nat, r: nat)
    requires j > 0 && Fixed(n / 10, i + (j - 1)) == Fixed(a, i) + Fixed(b, j - 1)
    requires r == 10 * b + n % 10
    ensures Fixed(n, i + j) == Fixed(a, i) + Fixed(r, j)
  {
    hide Fixed;
    FixedStep(n, i + j);
    FixedStep(r, j);
    Tenth(r, b, n % 10);
    Regroup(Fixed(a, i), Fixed(b, j - 1), [n % 10]);
  }

  lemma FixedNone(n: nat, i: nat)
    ensures Fixed(n, i + 0) == Fixed(n / 1, i) + Fixed(n % 1, 0)
  {}

  lemma {:induction false} FixedSplit(n: nat, i: nat, j: nat)
    ensures Fixed(n, i + j) == Fixed(n / Pow(10, j), i) + Fixed(n % Pow(10, j), j)
    decreases j
  {
    PowStep(j);
    hide Pow, Fixed;
    if j == 0 {
      FixedNone(n, i);
    } else {
      var p := Pow(10, j - 1);
      ModTen(n, p);
      FixedSplit(n / 10, i, j - 1);
      FixedJoin(n, i, j, n / 10 / p, n / 10 % p, n % (10 * p));
    }
  }

  lemma PowStep(j: nat)
    ensures Pow(10, j) == if j == 0 then 1 else 10 * Pow(10, j - 1)
  {}

  /** The splits with the power written out. */
  lemma SplitAt(n: nat, i: nat, k: nat, p: nat)
    requires Pow(10, k) == p
    ensures p > 0 && Fixed(n, i + k) == Fixed(n / p, i) + Fixed(n % p, k)
    ensures n >= p ==> Decimal(n) == Decimal(n / p) + Fixed(n % p, k)
  {
    hide Fixed, Decimal, Pow;
    FixedSplit(n, i, k);
    if n >= p {
      AtLeastOne(n, p);
      DecimalSplit(n, k);
    }
  }

  lemma AtLeastOne(n: nat, p: nat)
    requires 0 < p <= n
    ensures n / p > 0
  {}

  lemma TenPowers(z: nat)
    requires z < 1
    ensures Pow(10, 2 + z) == 100 && Pow(10, 4 + z) == 10000 && Pow(10, 8 + z) == 100000000
    ensures Pow(10, 16 + z) == 10000000000000000
  {
    assert Pow(10, z) == 1 && Pow(10, 1 + z) == 10 * Pow(10, z) && Pow(10, 2 + z) == 10 * Pow(10, 1 + z);
    hide Pow;
    PowSplit(10, 2 + z, 2 + z, 100, 100);
    PowSplit(10, 4 + z, 4 + z, 10000, 10000);
    PowSplit(10, 8 + z, 8 + z, 100000000, 100000000);
  }

  // ---- vector lanes ----

  const DIV_POWERS: seq<nat> := [0x20c5, 0x147b, 0x3334, 0x8000]
  const SHIFT_POWERS: seq<nat> := [0x0080, 0x0800, 0x2000, 0x8000]

  /** The high half of a 16-bit product. */
  function MulHi(x: nat, y: nat): nat { x * y / 0x10000 }

  /** One lane: four digits x, scaled by two reciprocals. */
  function Lane(x: nat, i: nat): nat
    requires i < 4
  {
    MulHi(MulHi(4 * x, DIV_POWERS[i]), SHIFT_POWERS[i])
  }

  lemma Lanes(x: nat)
    requires x < 10000
    ensures Lane(x, 0) == x / 1000 && Lane(x, 1) == x / 100 && Lane(x, 2) == x / 10 && Lane(x, 3) == x
  {
    LaneThousands(x);
    LaneHundreds(x);
    LaneTens(x);
    LaneOnes(x);
  }

  lemma LaneThousands(x: nat)
    requires x < 10000
    ensures 4 * x * 0x20c5 / 0x10000 * 0x80 / 0x10000 == x / 1000
  {}

  lemma LaneHundreds(x: nat)
    requires x < 10000
    ensures 4 * x * 0x147b / 0x10000 * 0x800 / 0x10000 == x / 100
  {}

  lemma LaneTens(x: nat)
    requires x < 10000
    ensures 4 * x * 0x3334 / 0x10000 * 0x2000 / 0x10000 == x / 10
  {}

  lemma LaneOnes(x: nat)
    requires x < 10000
    ensures 4 * x * 0x8000 / 0x10000 * 0x8000 / 0x10000 == x
  {
    assert 4 * x * 0x8000 == 2 * x * 0x10000;
    assert 4 * x * 0x8000 / 0x10000 == 2 * x;
  }

  /** Division by 10000 as a multiplication and a shift by 45. */
  function DivTenThousand(n: nat): nat { n * 0xd1b71759 / 0x2000_0000_0000 }

  lemma DivTenThousandExact(n: nat)
    requires n < 100000000
    ensures DivTenThousand(n) == n / 10000
  {
    var q, r := n / 10000, n % 10000;
    assert n * 0xd1b71759 == q * 0x2000_0000_0000 + (q * 1168 + r * 0xd1b71759);
  }

  /** Four lanes less ten times their left neighbours, in 16 bits: the four digits of x. */
  function FourDigits(x: nat): (d: seq<int>) {
    [Lane(x, 0),
     (Lane(x, 1) - 10 * Lane(x, 0)) % 0x10000,
     (Lane(x, 2) - 10 * Lane(x, 1)) % 0x10000,
     (Lane(x, 3) - 10 * Lane(x, 2)) % 0x10000]
  }

  function UtoaSSE(num: nat): (d: seq<int>) {
    var abcd := DivTenThousand(num);
    FourDigits(abcd) + FourDigits((num - 10000 * abcd) % 0x1_0000_0000)
  }

  lemma FixedFour(x: nat)
    requires x < 10000
    ensures Fixed(x, 4) == [x / 1000, x / 100 % 10, x / 10 % 10, x % 10]
  {
    assert Fixed(x, 4) == Fixed(x / 10, 3) + [x % 10];
    assert Fixed(x / 10, 3) == Fixed(x / 10 / 10, 2) + [x / 10 % 10];
    assert Fixed(x / 10 / 10, 2) == Fixed(x / 10 / 10 / 10, 1) + [x / 10 / 10 % 10];
    assert Fixed(x / 10 / 10 / 10, 1) == [] + [x / 10 / 10 / 10 % 10];
    hide Fixed;
    assert x / 10 / 10 == x / 100 && x / 10 / 10 / 10 == x / 1000;
  }

  lemma FourDigitsFixed(x: nat)
    requires x < 10000
    ensures FourDigits(x) == Fixed(x, 4)
  {
    Lanes(x);
    FixedFour(x);
    hide Lane, Fixed;
    LeftNeighbour(x / 10);
    LeftNeighbour(x / 100);
    LeftNeighbour(x);
    assert x / 10 / 10 == x / 100 && x / 100 / 10 == x / 1000;
  }

  lemma LeftNeighbour(y: nat)
    ensures (y - 10 * (y / 10)) % 0x10000 == y % 10
  {}

  lemma TwoHalves(num: nat)
    requires num < 100000000
    ensures UtoaSSE(num) == FourDigits(num / 10000) + FourDigits(num % 10000)
  {
    hide FourDigits, DivTenThousand;
    DivTenThousandExact(num);
    assert num - 10000 * (num / 10000) == num % 10000;
  }

  lemma EightFixed(num: nat)
    ensures Fixed(num, 8) == Fixed(num / 10000, 4) + Fixed(num % 10000, 4)
  {
    hide Fixed, Pow;
    var z: nat :| z < 1;
    TenPowers(z);
    SplitAt(num, 4, 4 + z, 10000);
  }

  /** The vector code yields exactly eight digits. */
  lemma UtoaSSEFixed(num: nat)
    requires num < 100000000
    ensures UtoaSSE(num) == Fixed(num, 8)
  {
    hide FourDigits, Fixed, UtoaSSE;
    TwoHalves(num);
    EightFixed(num);
    FourDigitsFixed(num / 10000);
    FourDigitsFixed(num % 10000);
  }

  // ---- writing ----

  /** The table of all pairs of digits. */
  function KDigits(i: nat): byte
    requires i < 200
  {
    ZERO + if i % 2 == 0 then i / 2 / 10 else i / 2 % 10
  }

  /** Copies two characters of the table, the second of which may be beyond what counts. */
  method Copy2Digs(out: array<byte>, at: nat, src: nat)
    requires at + 2 <= out.Length && src < 200
    modifies out
    ensures out[..at] == old(out[..at]) && out[at] == KDigits(src)
    ensures src + 1 < 200 ==> out[at + 1] == KDigits(src + 1)
  {
    out[at] := KDigits(src);
    out[at + 1] := if src + 1 < 200 then KDigits(src + 1) else 0;
  }

  /** One or two digits of val, without a leading zero. */
  method First(out: array<byte>, at: nat, val: nat) returns (end: nat)
    requires at + 2 <= out.Length && val < 100
    modifies out
    ensures at < end <= at + 2 && out[..at] == old(out[..at]) && out[at..end] == DigitText(Decimal(val))
  {
    hide Decimal;
    SmallDecimal(val);
    var lz := if val < 10 then 1 else 0;
    Copy2Digs(out, at, val * 2 + lz);
    end := at + 2 - lz;
    TablePair(val);
    assert lz == 1 ==> out[at..end] == [out[at]];
    assert lz == 0 ==> out[at..end] == [out[at], out[at + 1]];
  }

  lemma TablePair(val: nat)
    requires val < 100
    ensures KDigits(val * 2) == ZERO + val / 10 && KDigits(val * 2 + 1) == ZERO + val % 10
  {}

  lemma SmallDecimal(val: nat)
    requires val < 100
    ensures Decimal(val) == if val < 10 then [val] else [val / 10, val % 10]
  {
    if val > 0 {
      assert DigitsOf(val) == DigitsOf(val / 10) + [val % 10];
      if val >= 10 {
        assert DigitsOf(val / 10) == DigitsOf(val / 10 / 10) + [val / 10 % 10];
      }
    }
  }

  /** Two more digits. */
  method Pair(out: array<byte>, at: nat, val: nat) returns (end: nat)
    requires at + 2 <= out.Length && val < 100
    modifies out
    ensures end == at + 2 && out[..at] == old(out[..at]) && out[at..end] == DigitText(Fixed(val, 2))
  {
    Copy2Digs(out, at, val * 2);
    end := at + 2;
    assert Fixed(val, 2) == Fixed(val / 10, 1) + [val % 10];
    assert Fixed(val / 10, 1) == [] + [val / 10 % 10];
  }

  /** Text at [at, mid) followed by text at [mid, end). */
  lemma Joined(before: Bytes, now: Bytes, at: nat, mid: nat, end: nat, x: seq<digit>, y: seq<digit>)
    requires at <= mid <= end <= |before| == |now| && now[..mid] == before[..mid]
    requires before[at..mid] == DigitText(x) && now[mid..end] == DigitText(y)
    ensures now[at..end] == DigitText(x + y) && now[..at] == before[..at]
  {
    assert now[at..mid] == now[..mid][at..] && before[at..mid] == before[..mid][at..];
    assert now[..at] == now[..mid][..at] && before[..at] == before[..mid][..at];
    assert now[at..end] == now[at..mid] + now[mid..end];
    assert DigitText(x + y) == DigitText(x) + DigitText(y);
  }

  lemma SplitTwo(n: nat)
    ensures n >= 100 ==> Decimal(n) == Decimal(n / 100) + Fixed(n % 100, 2)
    ensures n >= 10000 ==> Decimal(n) == Decimal(n / 10000) + Fixed(n % 10000, 4)
    ensures Fixed(n, 4) == Fixed(n / 100, 2) + Fixed(n % 100, 2)
  {
    hide Decimal, Fixed, Pow;
    var z: nat :| z < 1;
    TenPowers(z);
    SplitAt(n, 2, 2 + z, 100);
    SplitAt(n, 4, 4 + z, 10000);
  }

  /** Four more digits. */
  method Quad(out: array<byte>, at: nat, val: nat) returns (end: nat)
    requires at + 4 <= out.Length && val < 10000
    modifies out
    ensures end == at + 4 && out[..at] == old(out[..at]) && out[at..end] == DigitText(Fixed(val, 4))
  {
    hide Fixed, DigitText;
    var mid := Pair(out, at, val / 100);
    ghost var before := out[..];
    end := Pair(out, mid, val % 100);
    SplitTwo(val);
    Joined(before, out[..], at, mid, end, Fixed(val / 100, 2), Fixed(val % 100, 2));
  }

  method Utoa_1_8(out: array<byte>, at: nat, val: nat) returns (end: nat)
    requires at + 8 <= out.Length && val < 100000000
    modifies out
    ensures at < end <= at + 8 && out[..at] == old(out[..at]) && out[at..end] == DigitText(Decimal(val))
  {
    hide Fixed, Decimal, DigitText;
    SplitTwo(val);
    if val < 100 {
      end := First(out, at, val);
    } else if val < 10000 {
      var hi, lo := val / 100, val % 100;
      var mid := First(out, at, hi);
      ghost var before := out[..];
      end := Pair(out, mid, lo);
      Joined(before, out[..], at, mid, end, Decimal(hi), Fixed(lo, 2));
    } else if val < 1000000 {
      var hi, lo := val / 10000, val % 10000;
      var mid := First(out, at, hi);
      ghost var before := out[..];
      end := Quad(out, mid, lo);
      Joined(before, out[..], at, mid, end, Decimal(hi), Fixed(lo, 4));
    } else {
      var hi, lo := val / 10000, val % 10000;
      SplitTwo(hi);
      var a := First(out, at, hi / 100);
      ghost var before := out[..];
      var b := Pair(out, a, hi % 100);
      Joined(before, out[..], at, a, b, Decimal(hi / 100), Fixed(hi % 100, 2));
      ghost var middle := out[..];
      end := Quad(out, b, lo);
      Joined(middle, out[..], at, b, end, Decimal(hi), Fixed(lo, 4));
    }
  }

  /** Stores eight digits with sixteen bytes. */
  method Utoa_8(out: array<byte>, at: nat, val: nat) returns (end: nat)
    requires at + 16 <= out.Length && val < 100000000
    modifies out
    ensures end == at + 8 && out[..at] == old(out[..at]) && out[at..end] == DigitText(Fixed(val, 8))
  {
    hide Fixed, UtoaSSE;
    UtoaSSEFixed(val);
    var d := UtoaSSE(val);
    forall k | 0 <= k < 16 {
      out[at + k] := if k < 8 then ZERO + d[k] else ZERO;
    }
    end := at + 8;
  }

  method Utoa_16(out: array<byte>, at: nat, val: nat) returns (end: nat)
    requires at + 16 <= out.Length && val < 10000000000000000
    modifies out
    ensures end == at + 16 && out[..at] == old(out[..at]) && out[at..end] == DigitText(Fixed(val, 16))
  {
    hide Fixed, UtoaSSE;
    UtoaSSEFixed(val / 100000000);
    UtoaSSEFixed(val % 100000000);
    var c, d := UtoaSSE(val / 100000000), UtoaSSE(val % 100000000);
    forall k | 0 <= k < 16 {
      out[at + k] := ZERO + if k < 8 then c[k] else d[k - 8];
    }
    end := at + 16;
    SplitEight(val);
    assert Fixed(val, 16) == c + d;
  }

  lemma SplitEight(n: nat)
    ensures n >= 100000000 ==> Decimal(n) == Decimal(n / 100000000) + Fixed(n % 100000000, 8)
    ensures n >= 10000000000000000 ==>
              Decimal(n) == Decimal(n / 10000000000000000) + Fixed(n % 10000000000000000, 16)
    ensures Fixed(n, 16) == Fixed(n / 100000000, 8) + Fixed(n % 100000000, 8)
  {
    hide Decimal, Fixed, Pow;
    var z: nat :| z < 1;
    TenPowers(z);
    SplitAt(n, 8, 8 + z, 100000000);
    SplitAt(n, 16, 16 + z, 10000000000000000);
  }

  method U64toa_17_20(out: array<byte>, at: nat, val: nat) returns (end: nat)
    requires at + 20 <= out.Length && 10000000000000000 <= val < U64_END
    modifies out
    ensures at < end <= at + 20 && out[..at] == old(out[..at]) && out[at..end] == DigitText(Decimal(val))
  {
    hide Fixed, Decimal, DigitText;
    var lo, hi := val % 10000000000000000, val / 10000000000000000;
    SplitEight(val);
    SplitTwo(hi);
    var mid;
    if hi < 100 {
      mid := First(out, at, hi);
    } else {
      var a := First(out, at, hi / 100);
      ghost var before := out[..];
      mid := Pair(out, a, hi % 100);
      Joined(before, out[..], at, a, mid, Decimal(hi / 100), Fixed(hi % 100, 2));
    }
    ghost var before := out[..];
    end := Utoa_16(out, mid, lo);
    Joined(before, out[..], at, mid, end, Decimal(hi), Fixed(lo, 16));
  }

  /** Writes the shortest spelling of a 64-bit number; at most 24 bytes are touched. */
  method U64toa(out: array<byte>, at: nat, val: nat) returns (end: nat)
    requires at + 24 <= out.Length && val < U64_END
    modifies out
    ensures at < end <= at + 20 && out[..at] == old(out[..at]) && out[at..end] == DigitText(Decimal(val))
  {
    hide Fixed, Decimal, DigitText;
    if val < 100000000 {
      end := Utoa_1_8(out, at, val);
    } else if val < 10000000000000000 {
      var hi, lo := val / 100000000, val % 100000000;
      var mid := Utoa_1_8(out, at, hi);
      ghost var before := out[..];
      end := Utoa_8(out, mid, lo);
      SplitEight(val);
      Joined(before, out[..], at, mid, end, Decimal(hi), Fixed(lo, 8));
    } else {
      end := U64toa_17_20(out, at, val);
    }
  }

  /** A number literal without fraction and exponent. */
  function IntegerLiteral(i: int): Number {
    Number(i < 0, Decimal(if i < 0 then 0 - i else i), [], NoExponent)
  }

  /** Writes a signed 64-bit number: the sign is stored first and overwritten when there is none. */
  method I64toa(out: array<byte>, at: nat, val: int) returns (end: nat)
    requires at + 25 <= out.Length && 0 - I64_END <= val < I64_END
    modifies out
    ensures at < end <= at + 21 && out[..at] == old(out[..at]) && out[at..end] == NumberText(IntegerLiteral(val))
  {
    hide Decimal, DigitText;
    var neg := if val < 0 then 1 else 0;
    ghost var start := out[..];
    out[at] := MINUS;
    ghost var before := out[..];
    var uval := val % U64_END;
    var absVal := if val < 0 then (0 - uval) % U64_END else uval;
    end := U64toa(out, at + neg, absVal);
    NumberDigits(IntegerLiteral(val));
    if val < 0 {
      assert out[at] == out[..at + 1][at] == before[..at + 1][at] == MINUS;
      assert out[at..end] == [out[at]] + out[at + 1..end];
      assert out[..at] == out[..at + 1][..at] == before[..at + 1][..at] == before[..at];
    }
    assert before[..at] == start[..at];
  }

  lemma NumberDigits(n: Number)
    requires n.frac == [] && n.exp.NoExponent?
    ensures NumberText(n) == (if n.neg then [MINUS] else []) + DigitText(n.whole)
  {
    hide DigitText;
    assert DigitText(n.whole) + ([] + []) == DigitText(n.whole);
  }

  /** The printed integer is read back as itself. */
  lemma IntegerReadsBack(i: int, conv: Conversion)
    requires 0 - I64_END <= i < U64_END
    ensures ValidNumber(IntegerLiteral(i))
    ensures NumberMeaning(IntegerLiteral(i), conv) == Some(if i < 0 then Int(i) else Uint(i))
  {
    DecimalReads(if i < 0 then 0 - i else i);
    hide Decimal, NatOf;
  }
}
