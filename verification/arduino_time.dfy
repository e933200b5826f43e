/**
  The Arduino time back-end: a single `unsigned long` count of microseconds
  since start-up, as `micros()` returns it. `unsigned long` is 32 bits wide
  on Arduino targets, so all arithmetic wraps modulo 2^32; the clock itself
  wraps about every 71.6 minutes.
 */
module ArduinoTime {
  import opened TimeSource

  /** 2^32, the number of values of a 32-bit `unsigned long`. */
  const ULongModulus: int := 0x1_0000_0000

  /** A 32-bit `unsigned long`. */
  type ULong = x: int | 0 <= x < ULongModulus

  /** `reset_time`: the value 0. */
  function ResetTime(): (r: ULong)
    ensures ToUs(r) == 0
  {
    0
  }

  /** `add_time`: unsigned addition, which wraps. */
  function Add(a: ULong, b: ULong): (r: ULong)
    ensures (a + b - r) % ULongModulus == 0
    ensures a + b < ULongModulus ==> r == a + b
    ensures a + b >= ULongModulus ==> r == a + b - ULongModulus
  {
    (a + b) % ULongModulus
  }

  /** `sub_time`: unsigned subtraction, which wraps. The result is the one
      value that `add_time` takes back to `a`. */
  function Sub(a: ULong, b: ULong): (r: ULong)
    ensures Add(r, b) == a
    ensures b <= a ==> r == a - b
    ensures a < b ==> r == a - b + ULongModulus
  {
    (a - b) % ULongModulus
  }

  /** `time_to_us`: the tick count already is in microseconds. */
  function ToUs(t: ULong): (r: nat)
    ensures r < ULongModulus
  {
    t
  }

  /** The Arduino instance of the platform time interface. */
  const Ops: TimeOps<ULong> := TimeOps(ResetTime(), Add, Sub, ToUs)

  /** The reset value is an identity for `add_time` on either side and for
      `sub_time` on the right. */
  lemma ZeroIsIdentity(a: ULong)
    ensures Add(a, ResetTime()) == a
    ensures Add(ResetTime(), a) == a
    ensures Sub(a, ResetTime()) == a
  {
  }

  /** `sub_time` and `add_time` undo each other for every pair of values,
      in particular across a wrap of the clock. */
  lemma SubAddRoundTrip(a: ULong, b: ULong)
    ensures Add(Sub(a, b), b) == a
    ensures Sub(Add(a, b), b) == a
  {
  }

  /** If a true duration `e` shorter than the wrap period elapses after the
      reading `a`, the later reading is `add_time(a, e)` and `sub_time`
      recovers `e` exactly, even when the clock wrapped in between. */
  lemma ElapsedAcrossWrap(a: ULong, e: nat)
    requires e < ULongModulus
    ensures Sub(Add(a, e), a) == e
  {
  }

  /** `time_to_us` maps `add_time` to addition modulo 2^32. */
  lemma ToUsAdditive(a: ULong, b: ULong)
    ensures ToUs(Add(a, b)) == (ToUs(a) + ToUs(b)) % ULongModulus
  {
  }

  /** Two consecutive elapsed times add up to the elapsed time across both:
      `(b - a) + (c - b) == c - a` in wrapping arithmetic. */
  lemma SubChain(a: ULong, b: ULong, c: ULong)
    ensures Add(Sub(b, a), Sub(c, b)) == Sub(c, a)
  {
  }
}
