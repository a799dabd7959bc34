/** Integer helpers of the math library. The source is generic over ordered
    types; the model takes unbounded integers. */
module StdMath {

  /** `abs`: the negation of a negative value, otherwise the value. */
  function Abs(x: int): (r: int)
    ensures r >= 0
    ensures r == x || r == -x
    ensures x >= 0 ==> r == x
  {
    if x < 0 then -x else x
  }

  /** `min`: the smaller value, the first one on a tie. */
  function Min(a: int, b: int): (r: int)
    ensures r <= a && r <= b
    ensures r == a || r == b
    ensures a == b ==> r == a
  {
    if a <= b then a else b
  }

  /** `max`: the larger value, the first one on a tie. */
  function Max(a: int, b: int): (r: int)
    ensures r >= a && r >= b
    ensures r == a || r == b
    ensures a == b ==> r == a
  {
    if a >= b then a else b
  }

  /** `clamp`: below `lo` gives `lo`, above `hi` gives `hi`. With crossed
      bounds (`lo > hi`) a value below `lo` still gives `lo`. */
  function Clamp(x: int, lo: int, hi: int): (r: int)
    ensures x < lo ==> r == lo
    ensures lo <= x && x > hi ==> r == hi
    ensures lo <= hi ==> lo <= r <= hi
    ensures lo <= x <= hi ==> r == x
  {
    if x < lo then lo else if x > hi then hi else x
  }

  /** Clamping twice is clamping once. */
  lemma ClampIdempotent(x: int, lo: int, hi: int)
    requires lo <= hi
    ensures Clamp(Clamp(x, lo, hi), lo, hi) == Clamp(x, lo, hi)
  {
  }

  /** With ordered bounds, clamping is taking the maximum with `lo` and then
      the minimum with `hi`. */
  lemma ClampIsMinOfMax(x: int, lo: int, hi: int)
    requires lo <= hi
    ensures Clamp(x, lo, hi) == Min(Max(x, lo), hi)
  {
  }

  /** `min` and `max` split a pair: together they give back both values. */
  lemma MinMaxPair(a: int, b: int)
    ensures Min(a, b) + Max(a, b) == a + b
    ensures Abs(a - b) == Max(a, b) - Min(a, b)
  {
  }
}
