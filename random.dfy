/** The random integer helper `randomNum` of src/Triangles.ts.
    `Math.random()` is not modelled as a source: every call site passes the draw it
    would have produced, a real in [0, 1). */
module Random {

  /** A value `Math.random()` can return. */
  predicate IsDraw(r: real) {
    0.0 <= r < 1.0
  }

  /** `parseInt(x.toString(), 10)`: the decimal text of `x` read up to its first
      non-digit, which truncates toward zero (so `-0.5` reads back as `-0`, i.e. 0). */
  function Trunc(x: real): (n: int)
    ensures 0.0 <= x ==> n as real <= x < n as real + 1.0
    ensures x < 0.0 ==> n as real - 1.0 < x <= n as real
  {
    if x >= 0.0 then x.Floor else -((-x).Floor)
  }

  /** `randomNum(minNum, maxNum)`: scale the draw to the width `maxNum - minNum + 1`,
      shift it by `minNum` and truncate. */
  function RandomNum(r: real, minNum: real, maxNum: real): int
  {
    Trunc(r * (maxNum - minNum + 1.0) + minNum)
  }

  lemma TruncMonotone(x: real, y: real)
    requires x <= y
    ensures Trunc(x) <= Trunc(y)
  {
    if x < 0.0 && 0.0 <= y {
    } else if 0.0 <= x {
      assert x.Floor <= y.Floor;
    } else {
      assert (-y).Floor <= (-x).Floor;
    }
  }

  /** Truncation is the identity on integers. */
  lemma TruncOfInt(k: int)
    ensures Trunc(k as real) == k
  {
  }

  /** A draw scales any positive width to a value in [0, width). */
  lemma ScaleBelow(r: real, w: real)
    requires IsDraw(r) && 0.0 < w
    ensures 0.0 <= r * w < w
  {
    assert (1.0 - r) * w > 0.0;
  }

  lemma ShiftBelow(x: real, w: real, minNum: real, maxNum: real)
    requires 0.0 <= x < w && w == maxNum - minNum + 1.0
    ensures minNum <= x + minNum < maxNum + 1.0
  {
  }

  /** The value a draw is scaled to lies in [minNum, maxNum + 1). */
  lemma ScaledDrawRange(r: real, minNum: real, maxNum: real) returns (x: real)
    requires IsDraw(r) && minNum <= maxNum
    ensures x == r * (maxNum - minNum + 1.0) + minNum
    ensures minNum <= x < maxNum + 1.0
  {
    var w := maxNum - minNum + 1.0;
    ScaleBelow(r, w);
    ShiftBelow(r * w, w, minNum, maxNum);
    x := r * w + minNum;
  }

  /** For any bounds, the result lies between the truncations of the ends of the
      scaled range; it is never more than one below `minNum`, and when `maxNum > -1`
      it is below `maxNum + 1`. */
  lemma RandomNumBounds(r: real, minNum: real, maxNum: real)
    requires IsDraw(r) && minNum <= maxNum
    ensures Trunc(minNum) <= RandomNum(r, minNum, maxNum) <= Trunc(maxNum + 1.0)
    ensures minNum - 1.0 < RandomNum(r, minNum, maxNum) as real
    ensures maxNum > -1.0 ==> (RandomNum(r, minNum, maxNum) as real) < maxNum + 1.0
  {
    var x := ScaledDrawRange(r, minNum, maxNum);
    TruncBetween(x, minNum, maxNum);
  }

  /** Truncating a value of [minNum, maxNum + 1) lands between the truncations of
      the ends, never more than one below `minNum`, and below `maxNum + 1` when
      `maxNum > -1`. */
  lemma TruncBetween(x: real, minNum: real, maxNum: real)
    requires minNum <= x < maxNum + 1.0
    ensures Trunc(minNum) <= Trunc(x) <= Trunc(maxNum + 1.0)
    ensures minNum - 1.0 < Trunc(x) as real
    ensures maxNum > -1.0 ==> (Trunc(x) as real) < maxNum + 1.0
  {
    TruncMonotone(minNum, x);
    TruncMonotone(x, maxNum + 1.0);
  }

  /** With integer bounds and a non-negative upper bound (every call in the source),
      the result is an integer of [minNum, maxNum]. */
  lemma RandomNumInRange(r: real, minNum: int, maxNum: int)
    requires IsDraw(r) && minNum <= maxNum && 0 <= maxNum
    ensures minNum <= RandomNum(r, minNum as real, maxNum as real) <= maxNum
  {
    RandomNumBounds(r, minNum as real, maxNum as real);
    TruncOfInt(minNum);
  }

  /** Every integer of [minNum, maxNum] is the result of some draw. */
  lemma RandomNumReaches(minNum: int, maxNum: int, k: int)
    requires minNum <= k <= maxNum
    ensures var r := (k - minNum) as real / (maxNum - minNum + 1) as real;
            IsDraw(r) && RandomNum(r, minNum as real, maxNum as real) == k
  {
    var w := (maxNum - minNum + 1) as real;
    var r := (k - minNum) as real / w;
    FractionIsDraw((k - minNum) as real, w);
    assert (maxNum as real) - (minNum as real) + 1.0 == w;
    assert r * w + minNum as real == k as real;
    TruncOfInt(k);
  }

  /** A fraction `a / w` with `0 <= a < w` is a draw, and scales back to `a`. */
  lemma FractionIsDraw(a: real, w: real)
    requires 0.0 <= a < w
    ensures IsDraw(a / w) && (a / w) * w == a
  {
  }

  /** With a negative upper bound the truncation rounds toward zero past it:
      `randomNum(-5, -1)` returns 0 for the draw 0.9. */
  lemma RandomNumNegativeRangeOverflows()
    ensures IsDraw(0.9) && RandomNum(0.9, -5.0, -1.0) == 0
  {
    assert 0.9 * (-1.0 - -5.0 + 1.0) + -5.0 == -0.5;
    assert (0.5).Floor == 0;
  }
}
