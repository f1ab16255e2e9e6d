/** IEEE 754 binary64 without a sign: what a 63-bit pattern is worth, and what it means
    to round an exact real to the nearest double, ties to even (IEEE 754-2019, section 4.3.1). */
module Binary64 {
  import opened Powers

  const P52 := 0x10_0000_0000_0000
  const P53 := 0x20_0000_0000_0000

  /** The pattern of +infinity, which rounding treats as 2^1024. */
  const INFINITY := 0x7FF0_0000_0000_0000

  /** The biased exponent that scales the fraction: subnormals share exponent 1. */
  function Scale(b: nat): (e: nat)
    ensures e >= 1
  {
    if b < P52 then 1 else b / P52
  }

  /** The significand as an integer, with its hidden bit. */
  function Significand(b: nat): (m: nat)
    ensures m <= P53
  {
    if b < P52 then b else P52 + b % P52
  }

  /** The exact value of the double with bit pattern b (sign bit clear). */
  function Value(b: nat): real {
    Times(Significand(b) as real, Two(Scale(b) - 1075))
  }

  function Abs(x: real): real {
    if x < 0.0 then -x else x
  }

  /** b is the double closest to v; on a tie, the one with an even pattern (the low bit of
      a pattern is the low bit of its significand).  A value that rounds up past the largest
      finite double lands on INFINITY. */
  ghost predicate Nearest(v: real, b: nat) {
    b <= INFINITY &&
    forall c: nat | c <= INFINITY && c != b ::
      Abs(v - Value(b)) <= Abs(v - Value(c)) &&
      (Abs(v - Value(b)) == Abs(v - Value(c)) ==> b % 2 == 0)
  }

  /** The same thing said with the two neighbours only. */
  ghost predicate Rounds(v: real, b: nat) {
    && b <= INFINITY
    && (b > 0 ==>
          && Value(b - 1) + Value(b) <= 2.0 * v
          && (Value(b - 1) + Value(b) == 2.0 * v ==> b % 2 == 0))
    && (b < INFINITY ==>
          && 2.0 * v <= Value(b) + Value(b + 1)
          && (2.0 * v == Value(b) + Value(b + 1) ==> b % 2 == 0))
  }

  /** Patterns are ordered like the values they stand for; one step is one unit in the
      last place. */
  lemma ValueStep(b: nat)
    ensures Value(b + 1) == Value(b) + Two(Scale(b) - 1075)
  {
    hide Two, Times;
    var s: int, t: int := Scale(b), Scale(b + 1);
    var m := Significand(b) as real;
    TimesAdd(m, 1.0, Two(s - 1075));
    TimesUnit(Two(s - 1075));
    if t == s {
      assert Significand(b + 1) as real == m + 1.0;
    } else {
      assert t == s + 1 && Significand(b) == P53 - 1 && Significand(b + 1) == P52;
      assert m + 1.0 == 2.0 * P52 as real;
      TwoStep(s - 1075);
      TimesDouble(P52 as real, Two(s - 1075));
    }
  }

  lemma {:induction false} ValueLess(b: nat, c: nat)
    requires b < c
    ensures Value(b) < Value(c)
    decreases c - b
  {
    hide *;
    ValueStep(c - 1);
    if b < c - 1 {
      ValueLess(b, c - 1);
    }
  }

  lemma ValueNonNegative(b: nat)
    ensures Value(0) == 0.0 && Value(b) >= 0.0
  {
    hide Two, Times;
    TimesUnit(Two(-1074));
    assert Value(0) == 0.0;
    hide *;
    if b > 0 {
      ValueLess(0, b);
    }
  }

  lemma NearestIsRounds(v: real, b: nat)
    ensures Nearest(v, b) <==> Rounds(v, b)
  {
    hide Value;
    if Rounds(v, b) {
      forall c: nat | c <= INFINITY && c != b
        ensures Abs(v - Value(b)) <= Abs(v - Value(c))
        ensures Abs(v - Value(b)) == Abs(v - Value(c)) ==> b % 2 == 0
      {
        if c < b {
          ValueLess(c, b);
          if c < b - 1 {
            ValueLess(c, b - 1);
          }
        } else {
          ValueLess(b, c);
          if b + 1 < c {
            ValueLess(b + 1, c);
          }
        }
      }
    }
    if Nearest(v, b) {
      if b > 0 {
        ValueLess(b - 1, b);
        assert Abs(v - Value(b)) <= Abs(v - Value(b - 1));
      }
      if b < INFINITY {
        ValueLess(b, b + 1);
        assert Abs(v - Value(b)) <= Abs(v - Value(b + 1));
      }
    }
  }

  /** A value has one nearest double. */
  lemma NearestUnique(v: real, b: nat, c: nat)
    requires Nearest(v, b) && Nearest(v, c)
    ensures b == c
  {
    NearestIsRounds(v, b);
    NearestIsRounds(v, c);
    hide *;
    if b < c {
      RoundsApart(v, b, c);
    } else if c < b {
      RoundsApart(v, c, b);
    }
  }

  lemma RoundsApart(v: real, b: nat, c: nat)
    requires b < c && Rounds(v, b)
    ensures !Rounds(v, c)
  {
    hide Value;
    if b + 1 < c {
      ValueLess(b, c - 1);
      ValueLess(b + 1, c);
    }
  }

  /** Rounding is monotone, so two equal neighbours decide everything between them. */
  lemma NearestBetween(u: real, v: real, w: real, b: nat)
    requires u <= v <= w && Nearest(u, b) && Nearest(w, b)
    ensures Nearest(v, b)
  {
    NearestIsRounds(u, b);
    NearestIsRounds(v, b);
    NearestIsRounds(w, b);
    hide Value, Nearest;
  }

  /** Every value has one, found among the patterns up to c. */
  lemma {:induction false} NearestBelow(v: real, c: nat) returns (b: nat)
    requires v >= 0.0 && c <= INFINITY && (c < INFINITY ==> v < Value(c + 1))
    ensures Nearest(v, b)
    decreases c
  {
    hide Value, Nearest;
    ValueNonNegative(c);
    if v < Value(c) && c > 0 {
      b := NearestBelow(v, c - 1);
    } else {
      b := c;
      if c < INFINITY {
        ValueLess(c, c + 1);
        var mid := Value(c) + Value(c + 1);
        b := if 2.0 * v > mid || (2.0 * v == mid && c % 2 == 1) then c + 1 else c;
        if c + 1 < INFINITY {
          ValueLess(c + 1, c + 2);
        }
      }
      if c > 0 {
        ValueLess(c - 1, c);
      }
      NearestIsRounds(v, b);
    }
  }

  ghost function NearestOf(v: real): (b: nat)
    requires v >= 0.0
    ensures Nearest(v, b)
  {
    NearestExists(v);
    var b: nat :| Nearest(v, b);
    b
  }

  lemma NearestExists(v: real)
    requires v >= 0.0
    ensures exists b: nat :: Nearest(v, b)
  {
    hide Nearest;
    var b := NearestBelow(v, INFINITY);
  }

  // ----- how the code builds a pattern -----

  /** m is the integer closest to x, ties to even. */
  ghost predicate NearestInt(x: real, m: nat) {
    && 2.0 * x - 1.0 <= 2.0 * m as real <= 2.0 * x + 1.0
    && (2.0 * m as real == 2.0 * x - 1.0 || 2.0 * m as real == 2.0 * x + 1.0 ==> m % 2 == 0)
  }

  /** Adding a rounded significand (hidden bit included) to the shifted exponent gives the
      pattern, also when rounding carried into the next binade. */
  lemma ValueAt(e: nat, m: nat)
    requires 1 <= e && m <= P53 && (m >= P52 || e == 1)
    ensures Value((e - 1) * P52 + m) == Times(m as real, Two(e - 1075))
  {
    hide Two, Times;
    var b := (e - 1) * P52 + m;
    if m == P53 {
      assert b == (e + 1) * P52;
      assert Scale(b) == e + 1 && Significand(b) == P52;
      TwoStep(e - 1075);
      assert m as real == 2.0 * P52 as real;
      TimesDouble(P52 as real, Two(e - 1075));
    } else if m >= P52 {
      assert b == e * P52 + (m - P52);
      assert Scale(b) == e && Significand(b) == m;
    }
  }

  /** Rounding the significand x to an integer is rounding the value v to a double. */
  lemma RoundSignificand(v: real, x: real, e: nat, m: nat)
    requires 1 <= e <= 2046 && v == Times(x, Two(e - 1075))
    requires NearestInt(x, m)
    requires 0.0 <= x <= P53 as real && (x >= P52 as real || e == 1)
    ensures m <= P53 && (m >= P52 || e == 1)
    ensures (e - 1) * P52 + m <= INFINITY
    ensures Nearest(v, (e - 1) * P52 + m)
  {
    hide Value, Nearest, Two, Times, Scale, Significand;
    var b := (e - 1) * P52 + m;
    if b > 0 {
      LowerNeighbour(v, x, e, m);
    }
    if b < INFINITY {
      UpperNeighbour(v, x, e, m);
    }
    assert b <= INFINITY;
    NearestIsRounds(v, b);
  }

  lemma LowerNeighbour(v: real, x: real, e: nat, m: nat)
    requires 1 <= e && v == Times(x, Two(e - 1075))
    requires NearestInt(x, m) && m <= P53 && (m >= P52 || e == 1) && (e - 1) * P52 + m > 0
    requires x >= P52 as real || e == 1
    ensures var b := (e - 1) * P52 + m;
            Value(b - 1) + Value(b) <= 2.0 * v &&
            (Value(b - 1) + Value(b) == 2.0 * v ==> b % 2 == 0)
  {
    hide Value, Two, Times, Scale, Significand;
    var b := (e - 1) * P52 + m;
    ValueAt(e, m);
    assert b % 2 == m % 2;
    if m > P52 || e == 1 {
      ValueAt(e, m - 1);
      assert b - 1 == (e - 1) * P52 + (m - 1);
      SumScaled((m - 1) as real, m as real, x, Two(e - 1075), Value(b - 1), Value(b), v);
    } else {
      ValueLess(b - 1, b);
      SumScaled(m as real, m as real, x, Two(e - 1075), Value(b), Value(b), v);
    }
  }

  lemma UpperNeighbour(v: real, x: real, e: nat, m: nat)
    requires 1 <= e && v == Times(x, Two(e - 1075))
    requires NearestInt(x, m) && m <= P53 && (m >= P52 || e == 1)
    requires x <= P53 as real
    ensures var b := (e - 1) * P52 + m;
            2.0 * v <= Value(b) + Value(b + 1) &&
            (2.0 * v == Value(b) + Value(b + 1) ==> b % 2 == 0)
  {
    hide Value, Two, Times, Scale, Significand;
    var b := (e - 1) * P52 + m;
    ValueAt(e, m);
    assert b % 2 == m % 2;
    if m < P53 {
      ValueAt(e, m + 1);
      assert b + 1 == (e - 1) * P52 + (m + 1);
      SumScaled(m as real, (m + 1) as real, x, Two(e - 1075), Value(b), Value(b + 1), v);
    } else {
      ValueLess(b, b + 1);
      SumScaled(m as real, m as real, x, Two(e - 1075), Value(b), Value(b), v);
    }
  }

  lemma SumScaled(p: real, q: real, x: real, t: real, pt: real, qt: real, xt: real)
    requires t > 0.0 && pt == Times(p, t) && qt == Times(q, t) && xt == Times(x, t)
    ensures p + q <= 2.0 * x <==> pt + qt <= 2.0 * xt
    ensures p + q >= 2.0 * x <==> pt + qt >= 2.0 * xt
  {
    hide Times;
    TimesOrder(p + q, 2.0 * x, t);
    TimesOrder(2.0 * x, p + q, t);
    TimesAdd(p, q, t);
    TimesDouble(x, t);
  }
}
