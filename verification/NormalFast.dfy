/** The second table-driven path, for exponents that cannot leave the normal range. */
module NormalFast {
  import opened Powers
  import opened Binary64
  import opened Pow10Table
  import opened EiselLemire

  /** Neither the nine low bits of the one product nor the second word of both rule out that the dropped part
      is zero or about to overflow into the kept part. */
  predicate Doubtful(w: nat, p: nat) {
    var low := Mul(w, p / W64) / W64 % 512;
    var second := Mul(p, w) / W64 % W64;
    (low == 0 || low == 511) && (second == 0 || second == W64 - 1)
  }

  /** hi after one or both multiplications.  The nine low bits of hi, or else the carry of
      the second product, prove that the dropped part is neither zero nor about to overflow
      into the kept part. */
  method NormalProduct(w: u64, p: nat) returns (exact: bool, hi: u64, ghost low: nat)
    requires TOP <= w && TOP * W64 <= p < W64 * W64
    ensures exact <==> !Doubtful(w, p)
    ensures exact ==> TOP / 2 <= hi && low < W64 && (low != 0 || hi % 512 != 0)
    ensures exact ==> AtLeast(hi, low) <= Mul(p, w) && Mul(p + 1, w) <= Below(hi)
  {
    hide Mul;
    var lo;
    hi, lo := MulU64(w, p / W64);
    low := lo;
    exact := false;
    HighWord(w, p / W64, hi, lo);
    var bits := hi % 512;
    FirstLow(w, p, hi, lo);
    if (bits - 1) % W64 < 510 {
      OneProduct(w, p, hi, lo);
      exact := true;
    } else {
      var hi2, lo2 := MulU64(w, p % W64);
      var add := (lo + hi2) % W64;
      SecondLow(w, p, hi, lo, hi2, lo2);
      if (add + 1) % W64 > 1 {
        var carry := if add < lo || add < hi2 then 1 else 0;
        NoOverflow(w, p, hi, lo, hi2, lo2);
        TwoProducts(w, p, hi, lo, hi2, lo2, hi + carry, add);
        hi := hi + carry;
        low := add;
        exact := true;
      }
    }
  }

  lemma FirstLow(w: nat, p: nat, hi: nat, lo: nat)
    requires hi * W64 + lo == Mul(w, p / W64) && lo < W64
    ensures Mul(w, p / W64) / W64 == hi
  {
    hide Mul;
  }

  lemma SecondLow(w: nat, p: nat, hi: nat, lo: nat, hi2: nat, lo2: nat)
    requires w < W64 && lo2 < W64
    requires hi * W64 + lo == Mul(w, p / W64) && hi2 * W64 + lo2 == Mul(w, p % W64)
    ensures Mul(p, w) / W64 % W64 == (lo + hi2) % W64
  {
    hide Mul;
    SplitProduct(w, p);
    SecondWord(Mul(p, w), hi * W64 + lo, hi2, lo2);
    assert hi * W64 + lo + hi2 == hi * W64 + (lo + hi2);
  }

  /** In doubt are only products within 2^128 + 2^64 of a multiple of CELL. */
  lemma DoubtIsNear(w: nat, p: nat) returns (k: nat)
    requires w < W64 && Doubtful(w, p)
    ensures k * CELL <= Mul(p, w) + W64 * W64 && Mul(p, w) < k * CELL + W64 * W64 + W64
  {
    hide Mul;
    SplitProduct(w, p);
    var hi, lo := Mul(w, p / W64) / W64, Mul(w, p / W64) % W64;
    var hi2, lo2 := Mul(w, p % W64) / W64, Mul(w, p % W64) % W64;
    SecondLow(w, p, hi, lo, hi2, lo2);
    k := if hi % 512 == 0 then hi / 512 else hi / 512 + 1;
    SmallCarry(w, hi2, lo2);
    WordsNear(Mul(p, w), hi, lo, hi2, lo2, k);
  }

  lemma WordsNear(n: nat, hi: nat, lo: nat, hi2: nat, lo2: nat, k: nat)
    requires lo < W64 && hi2 < W64 && lo2 < W64 && n == (hi * W64 + lo + hi2) * W64 + lo2
    requires (lo + hi2) % W64 == 0 || (lo + hi2) % W64 == W64 - 1
    requires hi == 512 * k || hi + 1 == 512 * k
    ensures k * CELL <= n + W64 * W64 && n < k * CELL + W64 * W64 + W64
  {
    var c := (lo + hi2) / W64;
    assert lo + hi2 == c * W64 + (lo + hi2) % W64 && c <= 1;
  }

  /** Shifts the leading bit to bit 63. */
  method Normalise(high: u64, exp: int) returns (hi: u64, exp2: int)
    requires TOP / 2 <= high
    ensures TOP <= hi && exp2 == exp + 63 + high / TOP
    ensures hi / 1024 == if high / TOP == 1 then high / 1024 else high / 512
  {
    var lz := if high < TOP then 1 else 0;
    hi := if lz == 1 then high * 2 else high;
    exp2 := exp - lz;
    exp2 := exp2 + 64;
  }

  /** The bits of exponent e and leading bits q, rounded half to even at the lowest of them. */
  function Pattern(q: nat, e: int): (raw: nat)
    requires 1 <= e
  {
    (e - 1) * P52 + (q + q % 2) / 2
  }

  /** Rounds at bit 10 (a carry out of bit 63 means the next binade) and packs. */
  method RoundNormal(high: u64, exp: int, sgn: int) returns (raw: nat)
    requires TOP <= high && (sgn == 1 || sgn == -1) && 1 <= exp + 1086 <= 2045
    ensures raw == Signed(Pattern(high / 1024, exp + 1086), sgn)
  {
    hide Pattern, Signed;
    var hi, exp2 := high, exp;
    var roundUp := (hi / 1024) % 2 > 0;
    RoundAtBit10(hi, hi / 1024);
    PackedPattern(high / 1024, exp + 1086, (hi + if roundUp then 1024 else 0) % W64);
    hi := (hi + if roundUp then 1024 else 0) % W64;
    if hi < 1024 {
      hi := TOP;
      exp2 := exp2 + 1;
    }
    hi := hi / 2048;
    exp2 := exp2 + 11 + 52;
    exp2 := exp2 + 1023;
    raw := exp2 * P52 + hi % P52;
    raw := Signed(raw, sgn);
  }

  lemma PackedPattern(q: nat, e: int, rounded: nat)
    requires 1 <= e && TOP / 1024 <= q < W64 / 1024
    requires var m := (q + q % 2) / 2; if rounded < 1024 then m == P53 else rounded / 2048 == m < P53
    ensures Pattern(q, e) == if rounded < 1024 then (e + 1) * P52 + TOP / 2048 % P52 else e * P52 + rounded / 2048 % P52
  {}

  lemma RoundAtBit10(hi: nat, q: nat)
    requires TOP <= hi < W64 && q == hi / 1024
    ensures var rounded, m := (hi + if q % 2 > 0 then 1024 else 0) % W64, (q + q % 2) / 2;
            if rounded < 1024 then m == P53 else rounded / 2048 == m < P53
  {
    var r := hi % 1024;
    assert hi == q * 1024 + r;
    var m := (q + q % 2) / 2;
    if q % 2 > 0 {
      assert hi + 1024 == m * 2048 + r;
      if m == P53 {
        assert hi + 1024 == W64 + r;
      }
    }
  }

  lemma NormalPattern(man: nat, exp10: int, lz: nat, w: nat, x: real, q: nat, msb: nat, e: int)
    requires w == Mul(man, Pow(2, lz)) && x == Times(Ten(exp10), Two(127 - Log2Ten(exp10)))
    requires Kept(Times(x, w as real), q, 9 + msb) && P53 <= q < 2 * P53
    requires q % 4 == 1 ==> Times(x, w as real) != Times(q as real, Two(137 + msb))
    requires e == Log2Ten(exp10) + 1086 + msb - lz && 1 <= e <= 2045
    ensures P52 <= Pattern(q, e) < INFINITY && Nearest(Exact(man, exp10), Pattern(q, e))
  {
    hide Two, Ten, Times, Mul, Pow, Kept, Nearest, Log2Ten, Exact;
    RoundedPattern(man, exp10, lz, w, x, q, msb, e);
  }

  /** include/sonic/internal/parse_number_normal_fast.h, in the exponent range of its caller. */
  method ParseFloatingNormalFast(exp10: int, man: u64, sgn: int) returns (ok: bool, raw: nat)
    requires man > 0 && -307 < exp10 < 288 && (sgn == 1 || sgn == -1)
    ensures ok <==> !Doubtful(Normal(man), Pow10M128(exp10))
    ensures ok ==> RoundsTo(Exact(man, exp10), raw, sgn)
  {
    var exp2 := (217706 * exp10 - 4128768) / 65536;
    assert exp2 == Log2Ten(exp10) - 63 && -1020 <= Log2Ten(exp10) <= 956;
    hide Two, Ten, Times, Mul, Pow, Kept, Nearest, Log2Ten, LeadingZeroes, Pow10M128, Exact, Pattern;
    var p := Pow10M128(exp10);
    var lz := LeadingZeroes(man);
    var sig1: u64 := Mul(man, Pow(2, lz));
    exp2 := exp2 - lz;
    ghost var x := Times(Ten(exp10), Two(127 - Log2Ten(exp10)));
    ghost var t := Times(x, sig1 as real);
    TableBracket(exp10);
    var exact, hi, low := NormalProduct(sig1, p);
    if !exact {
      return false, 0;
    }
    ScaledBounds(sig1, p, x, AtLeast(hi, low), Below(hi));
    ghost var msb := hi / TOP;
    ghost var q := if msb == 1 then hi / 1024 else hi / 512;
    KeptBits(t, hi, low, msb, q);
    ghost var e := Log2Ten(exp10) + 1086 + msb - lz;
    NormalPattern(man, exp10, lz, sig1, x, q, msb, e);
    hi, exp2 := Normalise(hi, exp2);
    raw := RoundNormal(hi, exp2, sgn);
    ok := true;
  }
}
