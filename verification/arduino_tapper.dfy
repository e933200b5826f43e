/**
  The tempo tapper on an Arduino: the accumulator instantiated with 32-bit
  `micros()` tick counts. The clock wraps about every 71.6 minutes; because
  elapsed times are taken with wrapping subtraction, a wrap between two
  taps does not disturb the measured interval, and the accumulated period is
  exact as long as a whole session is shorter than one wrap period.
 */
module ArduinoTapper {
  import opened TimeSource
  import opened ArduinoTime
  import TT = TempoTapper

  /** `tt_tap` on Arduino. A counted tap adds the time elapsed since the
      previous tap, modulo 2^32, taking a wrap of the clock in between into
      account. */
  function Tap(t: TT.Tapper<ULong>, now: ULong): (r: TT.Tapper<ULong>)
    ensures r.taps == t.taps + 1 && r.lstT == now
    ensures t.taps < 0 ==> r.prdSum == t.prdSum
    ensures t.taps >= 0 && t.lstT <= now ==> r.prdSum == Add(t.prdSum, now - t.lstT)
    ensures t.taps >= 0 && now < t.lstT ==> r.prdSum == Add(t.prdSum, ULongModulus - t.lstT + now)
  {
    TT.Tap(Ops, t, now)
  }

  /** What `micros()` returns when its unwrapped count since start-up is
      each of `times`: the one 32-bit value congruent to that count. */
  function Readings(times: seq<nat>): (r: seq<ULong>)
    ensures |r| == |times|
    ensures forall i :: 0 <= i < |times| ==> (times[i] - r[i]) % ULongModulus == 0
  {
    seq(|times|, i requires 0 <= i < |times| => times[i] % ULongModulus)
  }

  /** The elapsed times the tapper measures between consecutive readings. */
  function Gaps(s: seq<ULong>): (g: seq<int>)
    ensures |g| == if |s| < 2 then 0 else |s| - 1
    ensures forall i :: 0 <= i < |g| ==> g[i] == Sub(s[i + 1], s[i])
  {
    if |s| < 2 then [] else Gaps(s[..|s| - 1]) + [Sub(s[|s| - 1], s[|s| - 2])]
  }

  /** The accumulated period of a session is the wrapped elapsed time from
      its first to its last tap: the intervals telescope. */
  lemma {:induction false} SumIntervalsIsSpan(s: seq<ULong>)
    requires |s| >= 1
    ensures TT.SumIntervals(Ops, s) == Sub(s[|s| - 1], s[0])
  {
    if |s| >= 2 {
      var s' := s[..|s| - 1];
      SumIntervalsIsSpan(s');
      SubChain(s[0], s[|s| - 2], s[|s| - 1]);
    }
  }

  /** The measured gaps add up to the span of the session, modulo 2^32. */
  lemma {:induction false} GapsSumWraps(s: seq<ULong>)
    requires |s| >= 1
    ensures Sum(Gaps(s)) >= 0
    ensures Sum(Gaps(s)) % ULongModulus == Sub(s[|s| - 1], s[0])
  {
    if |s| >= 2 {
      var s' := s[..|s| - 1];
      GapsSumWraps(s');
      assert Gaps(s)[..|s| - 2] == Gaps(s');
      var x := Sum(Gaps(s'));
      var g := Sub(s[|s| - 1], s[|s| - 2]);
      assert Sum(Gaps(s)) == x + g;
      ReduceSum(x, g);
      SubChain(s[0], s[|s| - 2], s[|s| - 1]);
    }
  }

  /** Reducing modulo 2^32 before or after adding a 32-bit value gives the
      same result. */
  lemma ReduceSum(x: nat, g: ULong)
    ensures (x + g) % ULongModulus == Add(x % ULongModulus, g)
  {
    var q := x / ULongModulus;
    var r := x % ULongModulus;
    assert x + g == q * ULongModulus + (r + g);
  }

  /** After a reset and taps at the readings `s`, the period is the sum of
      the measured gaps, reduced modulo 2^32, divided (truncating) by their
      number. */
  lemma PeriodOfSession(t: TT.Tapper<ULong>, s: seq<ULong>)
    requires |s| >= 2
    ensures TT.PeriodUs(Ops, TT.Session(Ops, t, s)) == (Sum(Gaps(s)) % ULongModulus) / (|s| - 1)
  {
    var sum := TT.SumIntervals(Ops, s);
    TT.SessionPeriod(Ops, t, s);
    SumIntervalsIsSpan(s);
    GapsSumWraps(s);
    assert Ops.toUs(sum) == Sum(Gaps(s)) % ULongModulus;
  }

  /** While the gaps of a session add up to less than 2^32 microseconds,
      the period is their exact truncated mean. */
  lemma PeriodIsMeanInterval(t: TT.Tapper<ULong>, s: seq<ULong>)
    requires |s| >= 2
    requires Sum(Gaps(s)) < ULongModulus
    ensures TT.PeriodUs(Ops, TT.Session(Ops, t, s)) == Sum(Gaps(s)) / (|s| - 1)
  {
    var sum := TT.SumIntervals(Ops, s);
    var total := Sum(Gaps(s));
    TT.SessionPeriod(Ops, t, s);
    SumIntervalsIsSpan(s);
    GapsSumWraps(s);
    ReduceSmall(total);
    assert Ops.toUs(sum) == total;
  }

  /** Reducing a value below 2^32 modulo 2^32 leaves it unchanged. */
  lemma ReduceSmall(x: int)
    requires 0 <= x < ULongModulus
    ensures x % ULongModulus == x
  {
  }

  /** `sub_time` on two readings recovers the unwrapped time between them
      when it is shorter than one wrap period. */
  lemma ElapsedOfReadings(a: nat, b: nat)
    requires a <= b < a + ULongModulus
    ensures Sub(b % ULongModulus, a % ULongModulus) == b - a
  {
  }

  /** Taps at unwrapped counts `times` (not necessarily ordered in between)
      whose first and last lie less than 2^32 microseconds apart give the
      exact truncated mean of the unwrapped intervals, whether or not
      `micros()` wrapped during the session. */
  lemma PeriodFromCounts(t: TT.Tapper<ULong>, times: seq<nat>)
    requires |times| >= 2
    requires times[0] <= times[|times| - 1] < times[0] + ULongModulus
    ensures TT.PeriodUs(Ops, TT.Session(Ops, t, Readings(times))) == (times[|times| - 1] - times[0]) / (|times| - 1)
  {
    var s := Readings(times);
    var sum := TT.SumIntervals(Ops, s);
    TT.SessionPeriod(Ops, t, s);
    SumIntervalsIsSpan(s);
    ElapsedOfReadings(times[0], times[|times| - 1]);
    assert Ops.toUs(sum) == times[|times| - 1] - times[0];
  }

  /** `n` taps every `d` microseconds from the unwrapped count `start` give a
      period of exactly `d`, even across a wrap of `micros()`, as long as
      the session lasts less than 2^32 microseconds. */
  lemma ConstantSpacingPeriod(t: TT.Tapper<ULong>, start: nat, d: nat, n: nat)
    requires n >= 2
    requires (n - 1) * d < ULongModulus
    ensures TT.PeriodUs(Ops, TT.Session(Ops, t, Readings(seq(n, i => start + i * d)))) == d
  {
    var times := seq(n, i => start + i * d);
    assert times[n - 1] - times[0] == (n - 1) * d;
    PeriodFromCounts(t, times);
    DivMultiple(n - 1, d);
  }

  /** Reset, then taps a quarter second before the clock wraps, a quarter
      second after, and half a second later still: the period is half a
      second (120 BPM) across the wrap. */
  lemma WrapScenario(t: TT.Tapper<ULong>)
    ensures
      var t0 := TT.Reset(Ops, t);
      var t1 := TT.Tap(Ops, t0, ULongModulus - 250000);
      var t2 := TT.Tap(Ops, t1, 250000);
      var t3 := TT.Tap(Ops, t2, 750000);
      && TT.PeriodUs(Ops, t1) == 0
      && TT.PeriodUs(Ops, t2) == 500000 && TT.Bpm(Ops, t2) == 120.0
      && TT.PeriodUs(Ops, t3) == 500000 && TT.Bpm(Ops, t3) == 120.0
  {
    var t0 := TT.Reset(Ops, t);
    var t1 := TT.Tap(Ops, t0, ULongModulus - 250000);
    assert t1.prdSum == 0 && t1.taps == 0;
    var t2 := TT.Tap(Ops, t1, 250000);
    assert t2.prdSum == 500000 && t2.taps == 1;
    var t3 := TT.Tap(Ops, t2, 750000);
    assert t3.prdSum == 1000000 && t3.taps == 2;
  }
}
