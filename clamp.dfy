/** The clamping helpers of math/clamp.h, over integers. */
module Clamp {

  /** clamp(x, xmin, xmax): the lower bound wins when x is at or below it, then the upper bound. */
  function Clamp(x: int, xmin: int, xmax: int): (r: int)
    // On a proper interval the result is the point of [xmin, xmax] nearest to x.
    ensures xmin <= xmax ==> xmin <= r <= xmax
    ensures xmin <= xmax ==> forall y :: xmin <= y <= xmax ==> Dist(r, x) <= Dist(y, x)
    // x itself comes back exactly when it is strictly inside.
    ensures xmin < x < xmax ==> r == x
    ensures x <= xmin ==> r == xmin
    // On an inverted interval the result is xmin up to xmin and xmax above it.
    ensures xmax < xmin ==> r == (if x <= xmin then xmin else xmax)
  {
    if x <= xmin then xmin
    else if x >= xmax then xmax
    else x
  }

  /** Distance on the integer line, used to state what Clamp is closest to. */
  function Dist(a: int, b: int): nat
  {
    if a <= b then b - a else a - b
  }

  /** clamp_min(x, xmin) = max(x, xmin). */
  function ClampMin(x: int, xmin: int): (r: int)
    ensures r >= x && r >= xmin
    ensures r == x || r == xmin
  {
    if x >= xmin then x else xmin
  }

  /** clamp_max(x, xmax) = min(x, xmax). */
  function ClampMax(x: int, xmax: int): (r: int)
    ensures r <= x && r <= xmax
    ensures r == x || r == xmax
  {
    if x <= xmax then x else xmax
  }

  /** in_bounds(x, xmin, xmax): both bounds are inclusive. */
  predicate InBounds(x: int, xmin: int, xmax: int)
  {
    xmin <= x && x <= xmax
  }

  /** A value is left alone by Clamp exactly when it is in bounds, and Clamp always lands in bounds. */
  lemma ClampInBounds(x: int, xmin: int, xmax: int)
    requires xmin <= xmax
    ensures InBounds(Clamp(x, xmin, xmax), xmin, xmax)
    ensures Clamp(x, xmin, xmax) == x <==> InBounds(x, xmin, xmax)
  {
  }

  /** Clamping twice is clamping once; Clamp is the composition of clamp_min and clamp_max. */
  lemma ClampIdempotent(x: int, xmin: int, xmax: int)
    requires xmin <= xmax
    ensures Clamp(Clamp(x, xmin, xmax), xmin, xmax) == Clamp(x, xmin, xmax)
    ensures Clamp(x, xmin, xmax) == ClampMax(ClampMin(x, xmin), xmax)
  {
  }
}
