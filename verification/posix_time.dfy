/**
  The POSIX time back-end: a `struct timeval` (seconds and microseconds),
  added and subtracted with the BSD `timeradd` / `timersub` macros of the C
  library's <sys/time.h>, and converted to an `unsigned long` count of
  microseconds.

  Integers here are unbounded; `unsigned long` is taken to be 64 bits wide,
  as on LP64 hosts, and the conversion in `ToUs` wraps modulo 2^64.
 */
module PosixTime {
  import opened TimeSource

  /** 2^64, the number of values of a 64-bit `unsigned long`. */
  const ULongModulus: int := 0x1_0000_0000_0000_0000

  /** 2^63, one past the largest signed 64-bit `long`. */
  const LongLimit: int := 0x8000_0000_0000_0000

  /** A `struct timeval`: `tv_sec` and `tv_usec`. */
  datatype TimeVal = TimeVal(sec: int, usec: int)

  /** The microsecond field is in range, as `gettimeofday` delivers it. */
  predicate Normalised(t: TimeVal)
  {
    0 <= t.usec < UsPerSec
  }

  /** The exact duration or instant a timeval denotes, in microseconds. */
  function Micros(t: TimeVal): int
  {
    t.sec * UsPerSec + t.usec
  }

  /** `reset_time`: both fields set to 0. */
  function ResetTime(): (r: TimeVal)
    ensures Normalised(r)
    ensures Micros(r) == 0
  {
    TimeVal(0, 0)
  }

  /** `add_time`, i.e. `timeradd`: add field-wise, then carry one second
      if the microsecond field reached 1000000. */
  function Add(a: TimeVal, b: TimeVal): (r: TimeVal)
    ensures Micros(r) == Micros(a) + Micros(b)
    ensures Normalised(a) && Normalised(b) ==> Normalised(r)
  {
    var sum := TimeVal(a.sec + b.sec, a.usec + b.usec);
    if sum.usec >= UsPerSec then TimeVal(sum.sec + 1, sum.usec - UsPerSec) else sum
  }

  /** `sub_time`, i.e. `timersub`: subtract field-wise, then borrow one
      second if the microsecond field went negative. */
  function Sub(a: TimeVal, b: TimeVal): (r: TimeVal)
    ensures Micros(r) == Micros(a) - Micros(b)
    ensures Normalised(a) && Normalised(b) ==> Normalised(r)
  {
    var diff := TimeVal(a.sec - b.sec, a.usec - b.usec);
    if diff.usec < 0 then TimeVal(diff.sec - 1, diff.usec + UsPerSec) else diff
  }

  /** `time_to_us`: `tv_sec * S_TO_US + tv_usec`, returned as an
      `unsigned long`. */
  function ToUs(t: TimeVal): (r: nat)
    ensures r < ULongModulus
    ensures 0 <= Micros(t) < ULongModulus ==> r == Micros(t)
  {
    Micros(t) % ULongModulus
  }

  /** The POSIX instance of the platform time interface. */
  const Ops: TimeOps<TimeVal> := TimeOps(ResetTime(), Add, Sub, ToUs)

  /** A normalised timeval is determined by the microseconds it denotes. */
  lemma MicrosDetermines(a: TimeVal, b: TimeVal)
    requires Normalised(a) && Normalised(b)
    requires Micros(a) == Micros(b)
    ensures a == b
  {
  }

  /** The reset value is an identity for `add_time` on either side, and
      for `sub_time` on the right. */
  lemma ZeroIsIdentity(a: TimeVal)
    requires Normalised(a)
    ensures Add(a, ResetTime()) == a
    ensures Add(ResetTime(), a) == a
    ensures Sub(a, ResetTime()) == a
  {
  }

  /** `sub_time` and `add_time` undo each other on normalised values. */
  lemma SubAddRoundTrip(a: TimeVal, b: TimeVal)
    requires Normalised(a) && Normalised(b)
    ensures Add(Sub(a, b), b) == a
    ensures Sub(Add(a, b), b) == a
  {
    MicrosDetermines(Add(Sub(a, b), b), a);
    MicrosDetermines(Sub(Add(a, b), b), a);
  }

  /** On normalised inputs, `sub_time` yields a non-negative duration
      exactly when `a` is not earlier than `b`. */
  lemma SubNonNegative(a: TimeVal, b: TimeVal)
    requires Normalised(a) && Normalised(b)
    ensures Sub(a, b).sec >= 0 <==> Micros(a) >= Micros(b)
  {
    var r := Sub(a, b);
    if r.sec >= 0 {
      assert Micros(r) >= 0;
    } else {
      assert Micros(r) < r.sec * UsPerSec + UsPerSec <= 0;
    }
  }

  /** `time_to_us` turns `add_time` into addition as long as no value
      leaves the range of `unsigned long`. */
  lemma ToUsAdditive(a: TimeVal, b: TimeVal)
    requires 0 <= Micros(a) && 0 <= Micros(b)
    requires Micros(a) + Micros(b) < ULongModulus
    ensures ToUs(Add(a, b)) == ToUs(a) + ToUs(b)
  {
  }

  /** `time_to_us` turns `sub_time` into subtraction whenever `a` is not
      earlier than `b` and both are representable. */
  lemma ToUsSubtractive(a: TimeVal, b: TimeVal)
    requires 0 <= Micros(b) <= Micros(a) < ULongModulus
    ensures ToUs(Sub(a, b)) == ToUs(a) - ToUs(b)
  {
  }

  /** Adding a multiple of 2^64 does not change a value modulo 2^64. */
  lemma ReduceShift(k: int, x: int)
    ensures (k * ULongModulus + x) % ULongModulus == x % ULongModulus
  {
    var q := x / ULongModulus;
    var r := x % ULongModulus;
    assert k * ULongModulus + x == (k + q) * ULongModulus + r;
  }

  /** For all time values, `time_to_us` turns `add_time` into addition
      modulo 2^64, the arithmetic of `unsigned long`. */
  lemma ToUsWrapsAdditively(a: TimeVal, b: TimeVal)
    ensures ToUs(Add(a, b)) == (ToUs(a) + ToUs(b)) % ULongModulus
  {
    var x, y := Micros(a), Micros(b);
    ReduceShift(x / ULongModulus + y / ULongModulus, ToUs(a) + ToUs(b));
    assert x + y == (x / ULongModulus + y / ULongModulus) * ULongModulus + (ToUs(a) + ToUs(b));
  }

  /** For all time values, `time_to_us` turns `sub_time` into subtraction
      modulo 2^64. */
  lemma ToUsWrapsSubtractively(a: TimeVal, b: TimeVal)
    ensures ToUs(Sub(a, b)) == (ToUs(a) - ToUs(b)) % ULongModulus
  {
    var x, y := Micros(a), Micros(b);
    ReduceShift(x / ULongModulus - y / ULongModulus, ToUs(a) - ToUs(b));
    assert x - y == (x / ULongModulus - y / ULongModulus) * ULongModulus + (ToUs(a) - ToUs(b));
  }
}
