/** Numeric helpers shared by the layout model. Java `float`s are modelled as
    `real` (no rounding, no NaN); Java `int` arithmetic that may wrap is
    written out with `Wrap32`. */
module Numbers {

  /** `Float.MAX_VALUE`, the largest finite 32-bit float, (2 - 2^-23) * 2^127. */
  const FLOAT_MAX: real := 340282346638528859811704183484516925440.0

  /** Convergence threshold of the sizing solver (`TOLERANCE = 0.01f`). */
  const TOLERANCE: real := 0.01

  const TWO_POW_31: int := 0x8000_0000
  const TWO_POW_32: int := 0x1_0000_0000

  type Int32 = x: int | -TWO_POW_31 <= x < TWO_POW_31

  function Max(a: real, b: real): real { if a >= b then a else b }

  function Min(a: real, b: real): real { if a <= b then a else b }

  /** `Math.min(Math.max(v, lo), hi)`: the lower bound is applied first, so an
      inverted range (`lo > hi`) yields `hi`. */
  function Clamp(v: real, lo: real, hi: real): (r: real)
    ensures r <= hi
    ensures lo <= hi ==> lo <= r
    ensures lo <= v <= hi ==> r == v
    ensures v < lo && lo <= hi ==> r == lo
    ensures hi < v ==> r == hi
    ensures lo > hi ==> r == hi
  {
    Min(Max(v, lo), hi)
  }

  /** Clamping twice with the same bounds changes nothing. */
  lemma ClampIdempotent(v: real, lo: real, hi: real)
    ensures Clamp(Clamp(v, lo, hi), lo, hi) == Clamp(v, lo, hi)
  {
  }

  /** `valueEquals(a, b)`: `a - b` lies strictly inside `(-TOLERANCE, TOLERANCE)`. */
  predicate ValueEquals(a: real, b: real)
  {
    a - b < TOLERANCE && a - b > -TOLERANCE
  }

  /** Two's-complement wrap of an integer into the 32-bit `int` range. */
  function Wrap32(x: int): (r: Int32)
    ensures (x - r) % TWO_POW_32 == 0
    ensures -TWO_POW_31 <= x < TWO_POW_31 ==> r == x
  {
    var m := (x + TWO_POW_31) % TWO_POW_32;
    assert x - (m - TWO_POW_31) == TWO_POW_32 * ((x + TWO_POW_31) / TWO_POW_32);
    m - TWO_POW_31
  }

  /** Sum of a sequence of reals, front to back. */
  function Sum(s: seq<real>): real
  {
    if |s| == 0 then 0.0 else s[0] + Sum(s[1..])
  }

  lemma {:induction false} SumAppend(a: seq<real>, b: seq<real>)
    ensures Sum(a + b) == Sum(a) + Sum(b)
  {
    if |a| == 0 {
      assert a + b == b;
    } else {
      assert (a + b)[1..] == a[1..] + b;
      SumAppend(a[1..], b);
    }
  }

  /** Replacing one element changes the sum by exactly the difference. */
  lemma {:induction false} SumUpdate(s: seq<real>, i: nat, v: real)
    requires i < |s|
    ensures Sum(s[i := v]) == Sum(s) - s[i] + v
  {
    if i == 0 {
      assert s[i := v][1..] == s[1..];
    } else {
      assert s[i := v][1..] == s[1..][i - 1 := v];
      SumUpdate(s[1..], i - 1, v);
    }
  }
}
