/**
  The platform time interface of the tempo tapper: the opaque time value
  `tt_time_t` and the arithmetic every platform supplies for it.

  The clock reading itself (`current_time`) is not part of this interface:
  it is foreign I/O, and every tap in this model receives the reading as an
  argument instead.
 */
module TimeSource {

  /** S_TO_US: microseconds per second. */
  const UsPerSec: int := 1000000

  /** One platform's time arithmetic, selected at build time in the source.
      `zero` is the value `reset_time` stores, `add` and `sub` are `add_time`
      and `sub_time`, and `toUs` is `time_to_us`, whose result is an
      `unsigned long` and hence never negative. */
  datatype TimeOps<!T> = TimeOps(zero: T, add: (T, T) -> T, sub: (T, T) -> T, toUs: T -> nat)

  /** The sum of a sequence of integers, added from the front. */
  function Sum(xs: seq<int>): int
  {
    if |xs| == 0 then 0 else Sum(xs[..|xs| - 1]) + xs[|xs| - 1]
  }

  /** A sequence of equal values sums to its length times that value. */
  lemma {:induction false} SumConstant(xs: seq<int>, d: int)
    requires forall i :: 0 <= i < |xs| ==> xs[i] == d
    ensures Sum(xs) == |xs| * d
  {
    if |xs| > 0 {
      SumConstant(xs[..|xs| - 1], d);
    }
  }

  /** A product of two non-negative integers is non-negative. */
  lemma MulNonNegative(a: int, b: int)
    requires a >= 0 && b >= 0
    ensures a * b >= 0
  {
  }

  /** Dividing a natural number by a positive integer does not increase it. */
  lemma DivAtMost(x: nat, k: int)
    requires k >= 1
    ensures x / k <= x
  {
    var q := x / k;
    assert x == k * q + x % k;
    MulNonNegative(k - 1, q);
    assert k * q == (k - 1) * q + q;
  }

  /** A quotient of `b` is the same quotient of any `a` equal to `b`. */
  lemma SameQuotient(q: int, a: int, b: int, k: int)
    requires k > 0 && a == b && q == b / k
    ensures q == a / k
  {
  }

  /** Dividing a multiple of `k` by `k` is exact. */
  lemma DivMultiple(k: int, d: int)
    requires k > 0
    ensures (k * d) / k == d
  {
    var q := (k * d) / k;
    var r := (k * d) % k;
    var m := d - q;
    assert k * d == k * q + r && 0 <= r < k;
    assert k * m == r;
    if m >= 1 {
      MulNonNegative(k, m - 1);
      assert false;
    } else if m <= -1 {
      MulNonNegative(k, -m - 1);
      assert false;
    }
  }
}
