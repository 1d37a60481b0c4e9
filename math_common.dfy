// The scalar helpers of include/scythe/math/common.h, over the integers.
// The templates are also instantiated with float; the comparisons they make
// are the same, and rounding plays no part in them.

module MathCommon {

  /** -1 for a negative value and +1 otherwise, zero included. */
  function Sign(x: int): (r: int)
    ensures r == -1 <==> x < 0
    ensures r == 1 <==> x >= 0
    ensures r * x >= 0
  {
    if x < 0 then -1 else 1
  }

  function Abs(x: int): (r: int)
    ensures r >= 0
    ensures r == x || r == -x
    ensures r == Sign(x) * x
  {
    if x < 0 then -x else x
  }

  /** The smaller argument; `b` when they are equal. */
  function Min(a: int, b: int): (r: int)
    ensures r == a || r == b
    ensures r <= a && r <= b
  {
    if a < b then a else b
  }

  /** The larger argument; `a` when they are equal. */
  function Max(a: int, b: int): (r: int)
    ensures r == a || r == b
    ensures r >= a && r >= b
  {
    if a < b then b else a
  }

  /** `a` below the range, `b` above it, `x` otherwise. */
  function Clamp(x: int, a: int, b: int): (r: int)
    ensures x < a ==> r == a
    ensures a <= x && b < x ==> r == b
    ensures a <= x <= b ==> r == x
    ensures a <= b ==> a <= r <= b
  {
    if x < a then a else if b < x then b else x
  }

  function Sqr(x: int): (r: int)
    ensures r >= 0
    ensures r == Abs(x) * Abs(x)
  {
    x * x
  }

  /** Clamping is idempotent and a no-op inside the range. */
  lemma ClampIdempotent(x: int, a: int, b: int)
    requires a <= b
    ensures Clamp(Clamp(x, a, b), a, b) == Clamp(x, a, b)
    ensures Clamp(x, a, b) == Max(a, Min(x, b))
  {
  }
}
