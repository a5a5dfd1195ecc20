/** Rounding of a redistributed child value to four decimal places, the
    `parseFloat(x.toFixed(4))` of the engine, taken over exact reals. */
module Rounding {

  /** The largest error `Round4` can make: half of the last decimal place. */
  const HalfUnit: real := 0.00005

  /** The largest accumulated error of `n` roundings: `n` half units. */
  function Tolerance(n: nat): real {
    n as real * HalfUnit
  }

  /** True of reals with at most four decimal places. */
  predicate IsFourDecimal(x: real) {
    (x * 10000.0).Floor as real == x * 10000.0
  }

  /** Rounds the magnitude half up and restores the sign, as `toFixed` does. */
  function Round4(x: real): (r: real)
    ensures x - HalfUnit <= r <= x + HalfUnit
  {
    var m := if x >= 0.0 then x else -x;
    var n := NearestInt(m * 10000.0);
    if x >= 0.0 then ScaleDown(n) else -ScaleDown(n)
  }

  /** The rounded value has at most four decimal places. */
  lemma Round4IsFourDecimal(x: real)
    ensures IsFourDecimal(Round4(x))
  {
    var m := if x >= 0.0 then x else -x;
    var n := NearestInt(m * 10000.0);
    ScaleDownIsFourDecimal(n);
    if x < 0.0 {
      NegateFourDecimal(ScaleDown(n));
    }
  }

  /** The nearest integer, halves going up. */
  function NearestInt(y: real): (n: int)
    ensures y - 0.5 < n as real <= y + 0.5
  {
    (y + 0.5).Floor
  }

  function ScaleDown(n: int): real
  {
    n as real / 10000.0
  }

  lemma ScaleDownIsFourDecimal(n: int)
    ensures IsFourDecimal(ScaleDown(n))
  {
    assert ScaleDown(n) * 10000.0 == n as real;
  }

  lemma NegateFourDecimal(x: real)
    requires IsFourDecimal(x)
    ensures IsFourDecimal(-x)
  {
    var k := (x * 10000.0).Floor;
    assert -x * 10000.0 == (-k) as real;
  }

  /** Values that already have four decimals pass through unchanged. */
  lemma Round4Exact(x: real)
    requires IsFourDecimal(x)
    ensures Round4(x) == x
  {
    var k := (x * 10000.0).Floor;
    if x >= 0.0 {
      assert NearestInt(x * 10000.0) == k;
    } else {
      assert (-x * 10000.0) == (-k) as real;
      assert NearestInt(-x * 10000.0) == -k;
    }
  }
}
