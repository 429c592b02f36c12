/** Rounding to the values of binary64 (section 3.3 of IEEE 754), the numbers of the scripts. The limits of
    the exponent are left out: nothing here comes near them. */
module Doubles {
  /** 2 to the power 53: the largest significand. */
  const SIGNIFICAND: int := 0x20_0000_0000_0000

  function Power(k: nat): (r: int)
    ensures r >= 1
  {
    if k == 0 then 1 else 2 * Power(k - 1)
  }

  function Times(x: real, y: real): real { x * y }

  /** x in units of 1 / 2^k. */
  function InUnits(x: real, k: nat): real { Times(x, Power(k) as real) }

  /** x is m scaled up or down by a power of two. */
  predicate IsScaled(x: real, m: int, k: nat) {
    x == InUnits(m as real, k) || InUnits(x, k) == m as real
  }

  ghost predicate Representable(x: real) {
    exists m: int, k: nat :: -SIGNIFICAND <= m <= SIGNIFICAND && IsScaled(x, m, k)
  }

  function Distance(x: real, y: real): real { if x <= y then y - x else x - y }

  /** Every operation gives a representable value nearest to the exact one, ties either way; rounding half
      to even, as the scripts' numbers do, is one such way. */
  ghost predicate RoundsToNearest(rn: real -> real) {
    forall x :: Representable(rn(x)) && forall y | Representable(y) :: Distance(rn(x), x) <= Distance(y, x)
  }

  lemma RepresentableKept(rn: real -> real, x: real)
    requires RoundsToNearest(rn) && Representable(x)
    ensures rn(x) == x
  {
    assert Distance(rn(x), x) <= Distance(x, x);
  }

  lemma RoundingIsMonotone(rn: real -> real, x: real, y: real)
    requires RoundsToNearest(rn) && x <= y
    ensures rn(x) <= rn(y)
  {
    assert Distance(rn(x), x) <= Distance(rn(y), x) && Distance(rn(y), y) <= Distance(rn(x), y);
  }

  lemma {:induction false} PowerAdds(a: nat, b: nat)
    ensures Power(a + b) == Power(a) * Power(b)
  {
    if a > 0 {
      PowerAdds(a - 1, b);
    }
  }

  lemma Powers()
    ensures Power(7) == 128 && Power(50) == SIGNIFICAND / 8 && Power(53) == SIGNIFICAND && Power(56) == 8 * SIGNIFICAND
  {
    assert Power(7) == 128 && Power(8) == 256;
    PowerAdds(8, 8);
    PowerAdds(16, 16);
    PowerAdds(32, 16);
    assert Power(2) == 4 && Power(5) == 32;
    PowerAdds(48, 2);
    PowerAdds(48, 5);
    PowerAdds(48, 8);
  }

  // ---------- Products ----------

  lemma Associates(x: real, p: int, q: int)
    ensures Times(Times(x, p as real), q as real) == Times(x, (p * q) as real)
  {
    assert (p * q) as real == p as real * q as real;
    Reorder(x, p as real, q as real);
  }

  lemma Reorder(x: real, p: real, q: real)
    ensures x * p * q == x * (p * q)
  {
  }

  lemma Whole(p: int, q: int)
    ensures Times(p as real, q as real) == (p * q) as real
  {
  }

  lemma AtLeastTwice(y: real, q: real)
    requires q >= 2.0
    ensures y <= 0.0 || 2.0 * y <= Times(y, q)
  {
    if y > 0.0 {
      assert y * (q - 2.0) >= 0.0;
    }
  }

  lemma Between(low: real, x: real, high: real, m: real)
    requires low <= x <= high && m >= 0.0
    ensures Times(low, m) <= Times(x, m) <= Times(high, m)
  {
    assert (x - low) * m >= 0.0 && (high - x) * m >= 0.0;
  }

  lemma Cancel(x: real, y: real, unit: real)
    requires unit >= 1.0 && Times(x, unit) == Times(y, unit)
    ensures x == y
  {
    assert (x - y) * unit == 0.0;
  }

  lemma Spread(x: real, y: real, unit: real)
    ensures Times(x - y, unit) == Times(x, unit) - Times(y, unit)
  {
  }

  lemma Stretch(x: real, y: real, unit: real)
    requires unit >= 1.0
    ensures Distance(Times(x, unit), Times(y, unit)) == Times(Distance(x, y), unit)
  {
    if x <= y {
      Between(x, x, y, unit);
      Spread(y, x, unit);
    } else {
      Between(y, y, x, unit);
      Spread(x, y, unit);
    }
  }

  lemma Closer(r: real, x: real, c: real, unit: real)
    requires unit >= 1.0 && Distance(r, x) <= Distance(c, x)
    ensures Distance(Times(r, unit), Times(x, unit)) <= Distance(Times(c, unit), Times(x, unit))
  {
    hide Times;
    Stretch(r, x, unit);
    Stretch(c, x, unit);
    Between(Distance(r, x), Distance(r, x), Distance(c, x), unit);
  }

  // ---------- The grid of a range ----------

  /** Units that are finer by a power of two. */
  lemma FinerUnits(x: real, j: nat, d: nat)
    ensures InUnits(x, j + d) == Times(InUnits(x, j), Power(d) as real)
  {
    hide Times;
    PowerAdds(j, d);
    Associates(x, Power(j), Power(d));
  }

  /** Above half of the range, representable values are whole in units of 1 / 2^j. */
  lemma OnGrid(x: real, j: nat) returns (i: int)
    requires Representable(x) && InUnits(x, j) > (SIGNIFICAND / 2) as real
    ensures InUnits(x, j) == i as real
  {
    hide Times;
    var m: int, k: nat :| -SIGNIFICAND <= m <= SIGNIFICAND && IsScaled(x, m, k);
    if x == InUnits(m as real, k) {
      Whole(m, Power(k));
      Whole(m * Power(k), Power(j));
      i := m * Power(k) * Power(j);
    } else {
      if k > j {
        FinerUnits(x, j, k - j);
        assert Power(k - j) == 2 * Power(k - j - 1);
        AtLeastTwice(InUnits(x, j), Power(k - j) as real);
        assert false;
      }
      FinerUnits(x, k, j - k);
      Whole(m, Power(j - k));
      i := m * Power(j - k);
    }
  }

  /** Whole multiples of 1 / 2^j within the range are representable. */
  lemma FractionIsRepresentable(x: real, m: int, j: nat)
    requires InUnits(x, j) == m as real && -SIGNIFICAND <= m <= SIGNIFICAND
    ensures Representable(x)
  {
    assert IsScaled(x, m, j);
  }

  lemma NearestTo(rn: real -> real, x: real, c: real)
    requires RoundsToNearest(rn) && Representable(c)
    ensures Representable(rn(x)) && Distance(rn(x), x) <= Distance(c, x)
  {
  }

  /** The nearest value is a multiple of 1 / 2^j at less than half that unit, where the values have no
      finer unit. */
  lemma RoundsToMultiple(rn: real -> real, x: real, c: real, m: int, j: nat)
    requires RoundsToNearest(rn) && 0 <= m <= SIGNIFICAND && m - 1 > SIGNIFICAND / 2
    requires InUnits(c, j) == m as real && -0.5 < InUnits(x, j) - m as real < 0.5
    ensures rn(x) == c
  {
    FractionIsRepresentable(c, m, j);
    NearestTo(rn, x, c);
    NearestMultiple(rn(x), x, c, m, j);
  }

  lemma CloserInUnits(r: real, x: real, c: real, j: nat)
    requires Distance(r, x) <= Distance(c, x)
    ensures Distance(InUnits(r, j), InUnits(x, j)) <= Distance(InUnits(c, j), InUnits(x, j))
  {
    Closer(r, x, c, Power(j) as real);
  }

  lemma SameInUnits(x: real, y: real, j: nat)
    requires InUnits(x, j) == InUnits(y, j)
    ensures x == y
  {
    Cancel(x, y, Power(j) as real);
  }

  lemma WholeBetween(r: real, c: real, i: int, m: int)
    requires r == i as real && c == m as real && c - 1.0 < r < c + 1.0
    ensures r == c
  {
    assert m - 1 < i < m + 1;
  }

  /** A value no farther from x than c, in the same units. */
  lemma NearC(r: real, x: real, c: real)
    requires Distance(r, x) <= Distance(c, x) && -0.5 < x - c < 0.5
    ensures c - 1.0 < r < c + 1.0
  {
  }

  lemma NearestMultiple(r: real, x: real, c: real, m: int, j: nat)
    requires Representable(r) && Distance(r, x) <= Distance(c, x) && m - 1 > SIGNIFICAND / 2
    requires InUnits(c, j) == m as real && -0.5 < InUnits(x, j) - m as real < 0.5
    ensures r == c
  {
    hide *;
    CloserInUnits(r, x, c, j);
    NearC(InUnits(r, j), InUnits(x, j), InUnits(c, j));
    var i := OnGrid(r, j);
    WholeBetween(InUnits(r, j), InUnits(c, j), i, m);
    SameInUnits(r, c, j);
  }
}
