/**
  The tempo tapper on a POSIX host: the accumulator instantiated with
  `struct timeval` time values.
 */
module PosixTapper {
  import opened TimeSource
  import opened PosixTime
  import TT = TempoTapper

  /** `tt_tap` on POSIX, where the caller must not let the clock run
      backwards between the previous tap and this one. Each counted tap
      adds exactly the elapsed microseconds to the accumulated period. */
  function Tap(t: TT.Tapper<TimeVal>, now: TimeVal): (r: TT.Tapper<TimeVal>)
    requires t.taps >= 0 ==> Micros(t.lstT) <= Micros(now)
    ensures r.taps == t.taps + 1 && r.lstT == now
    ensures t.taps < 0 ==> r.prdSum == t.prdSum
    ensures t.taps >= 0 ==> Micros(r.prdSum) == Micros(t.prdSum) + (Micros(now) - Micros(t.lstT))
    ensures Micros(r.prdSum) >= Micros(t.prdSum)
    ensures Normalised(t.prdSum) && Normalised(t.lstT) && Normalised(now) ==> Normalised(r.prdSum)
  {
    TT.Tap(Ops, t, now)
  }

  /** The gaps between consecutive readings of `s`, in microseconds. */
  function Gaps(s: seq<TimeVal>): (g: seq<int>)
    ensures |g| == if |s| < 2 then 0 else |s| - 1
    ensures forall i :: 0 <= i < |g| ==> g[i] == Micros(s[i + 1]) - Micros(s[i])
  {
    if |s| < 2 then [] else Gaps(s[..|s| - 1]) + [Micros(s[|s| - 1]) - Micros(s[|s| - 2])]
  }

  predicate AllNormalised(s: seq<TimeVal>)
  {
    forall i :: 0 <= i < |s| ==> Normalised(s[i])
  }

  /** The accumulated period of a session denotes the sum of its gaps, and
      stays normalised when the readings are. */
  lemma {:induction false} SumIntervalsMicros(s: seq<TimeVal>)
    ensures Micros(TT.SumIntervals(Ops, s)) == Sum(Gaps(s))
    ensures AllNormalised(s) ==> Normalised(TT.SumIntervals(Ops, s))
  {
    if |s| >= 2 {
      var s' := s[..|s| - 1];
      SumIntervalsMicros(s');
      assert Gaps(s)[..|s| - 2] == Gaps(s');
      assert AllNormalised(s) ==> AllNormalised(s');
    }
  }

  /** The gaps of a session telescope to the span from first to last tap. */
  lemma {:induction false} GapsTelescope(s: seq<TimeVal>)
    requires |s| >= 1
    ensures Sum(Gaps(s)) == Micros(s[|s| - 1]) - Micros(s[0])
  {
    if |s| >= 2 {
      GapsTelescope(s[..|s| - 1]);
      assert Gaps(s)[..|s| - 2] == Gaps(s[..|s| - 1]);
    }
  }

  /** Over a session whose last reading is no earlier than its first and
      whose span fits a signed `long`, `time_to_us` of the accumulated
      period is the exact sum of the gaps, which is the span of the session.
      The clock may step backwards between taps inside the session. */
  lemma AccumulatedMicros(s: seq<TimeVal>)
    requires |s| >= 1 && AllNormalised(s)
    requires 0 <= Micros(s[|s| - 1]) - Micros(s[0]) < LongLimit
    ensures Ops.toUs(TT.SumIntervals(Ops, s)) == Sum(Gaps(s)) == Micros(s[|s| - 1]) - Micros(s[0])
  {
    var sum := TT.SumIntervals(Ops, s);
    SumIntervalsMicros(s);
    GapsTelescope(s);
    assert Ops.toUs(sum) == ToUs(sum);
  }

  /** After a reset and taps at the readings `s`, the period is the span of
      the session divided, truncating, by the number of intervals, provided
      the last reading is no earlier than the first and the span fits a
      signed `long`; backward steps of the clock in between are allowed. */
  lemma PeriodIsMeanSpan(t: TT.Tapper<TimeVal>, s: seq<TimeVal>)
    requires |s| >= 2 && AllNormalised(s)
    requires 0 <= Micros(s[|s| - 1]) - Micros(s[0]) < LongLimit
    ensures TT.PeriodUs(Ops, TT.Session(Ops, t, s)) == (Micros(s[|s| - 1]) - Micros(s[0])) / (|s| - 1)
  {
    AccumulatedMicros(s);
    TT.SessionPeriodIs(Ops, t, s, Micros(s[|s| - 1]) - Micros(s[0]));
  }

  /** Under the same conditions, the period is the sum of the gaps divided,
      truncating, by their number: the truncated mean interval. */
  lemma PeriodIsMeanInterval(t: TT.Tapper<TimeVal>, s: seq<TimeVal>)
    requires |s| >= 2 && AllNormalised(s)
    requires 0 <= Micros(s[|s| - 1]) - Micros(s[0]) < LongLimit
    ensures TT.PeriodUs(Ops, TT.Session(Ops, t, s)) == Sum(Gaps(s)) / (|s| - 1)
  {
    var span := Micros(s[|s| - 1]) - Micros(s[0]);
    var period := TT.PeriodUs(Ops, TT.Session(Ops, t, s));
    assert period == span / (|s| - 1) by { PeriodIsMeanSpan(t, s); }
    assert Sum(Gaps(s)) == span by { GapsTelescope(s); }
    SameQuotient(period, Sum(Gaps(s)), span, |s| - 1);
  }

  /** Readings at a constant spacing of `d` microseconds have gaps that
      sum to `d` per interval. */
  lemma ConstantGapsSum(s: seq<TimeVal>, d: int)
    requires forall i :: 0 <= i < |s| - 1 ==> Micros(s[i + 1]) - Micros(s[i]) == d
    ensures Sum(Gaps(s)) == |Gaps(s)| * d
  {
    forall i | 0 <= i < |Gaps(s)|
      ensures Gaps(s)[i] == d
    {
      assert Gaps(s)[i] == Micros(s[i + 1]) - Micros(s[i]);
    }
    SumConstant(Gaps(s), d);
  }

  /** Taps at a constant spacing of `d` microseconds give a period of
      exactly `d`. */
  lemma ConstantSpacingPeriod(t: TT.Tapper<TimeVal>, s: seq<TimeVal>, d: nat)
    requires |s| >= 2 && AllNormalised(s)
    requires forall i :: 0 <= i < |s| - 1 ==> Micros(s[i + 1]) - Micros(s[i]) == d
    requires (|s| - 1) * d < LongLimit
    ensures TT.PeriodUs(Ops, TT.Session(Ops, t, s)) == d
  {
    var n := |s| - 1;
    var span := Micros(s[|s| - 1]) - Micros(s[0]);
    assert span == n * d by {
      ConstantGapsSum(s, d);
      GapsTelescope(s);
    }
    var period := TT.PeriodUs(Ops, TT.Session(Ops, t, s));
    assert period == span / n by { PeriodIsMeanSpan(t, s); }
    SameQuotient(period, n * d, span, n);
    DivMultiple(n, d);
  }

  /** Taps at a constant spacing of `d` microseconds give a tempo of
      exactly one beat per `d` microseconds. */
  lemma ConstantSpacingTempo(t: TT.Tapper<TimeVal>, s: seq<TimeVal>, d: nat)
    requires |s| >= 2 && AllNormalised(s)
    requires forall i :: 0 <= i < |s| - 1 ==> Micros(s[i + 1]) - Micros(s[i]) == d
    requires (|s| - 1) * d < LongLimit
    ensures d > 0 ==> TT.Bpm(Ops, TT.Session(Ops, t, s)) * d as real == TT.UsPerMinute as real
  {
    ConstantSpacingPeriod(t, s, d);
    TT.BpmOfPeriod(Ops, TT.Session(Ops, t, s));
  }

  /** The first tap after a reset records the baseline 0 s. */
  lemma HalfSecondBaseline(t: TT.Tapper<TimeVal>)
    ensures TT.Tap(Ops, TT.Reset(Ops, t), TimeVal(0, 0)) == TT.Tapper(TimeVal(0, 0), TimeVal(0, 0), 0)
  {
  }

  /** The tap at 0.5 s after the baseline 0 s records one interval. */
  lemma HalfSecondSecondTap()
    ensures TT.Tap(Ops, TT.Tapper(TimeVal(0, 0), TimeVal(0, 0), 0), TimeVal(0, 500000))
         == TT.Tapper(TimeVal(0, 500000), TimeVal(0, 500000), 1)
  {
  }

  /** The tap at 1 s records the second interval, carrying into `tv_sec`. */
  lemma HalfSecondThirdTap()
    ensures TT.Tap(Ops, TT.Tapper(TimeVal(0, 500000), TimeVal(0, 500000), 1), TimeVal(1, 0))
         == TT.Tapper(TimeVal(1, 0), TimeVal(1, 0), 2)
  {
    HalfSecondBorrowAndCarry();
  }

  /** From 0.5 s to 1 s `sub_time` borrows a second, and adding two half
      seconds with `add_time` carries one. */
  lemma HalfSecondBorrowAndCarry()
    ensures Sub(TimeVal(1, 0), TimeVal(0, 500000)) == TimeVal(0, 500000)
    ensures Add(TimeVal(0, 500000), TimeVal(0, 500000)) == TimeVal(1, 0)
  {
  }

  /** The period and tempo of one interval of half a second, and of two. */
  lemma HalfSecondQueries()
    ensures TT.PeriodUs(Ops, TT.Tapper(TimeVal(0, 500000), TimeVal(0, 500000), 1)) == 500000
    ensures TT.Bpm(Ops, TT.Tapper(TimeVal(0, 500000), TimeVal(0, 500000), 1)) == 120.0
    ensures TT.PeriodUs(Ops, TT.Tapper(TimeVal(1, 0), TimeVal(1, 0), 2)) == 500000
    ensures TT.Bpm(Ops, TT.Tapper(TimeVal(1, 0), TimeVal(1, 0), 2)) == 120.0
  {
    assert ToUs(TimeVal(0, 500000)) == 500000;
    assert ToUs(TimeVal(1, 0)) == 1000000;
  }

  /** Reset, then taps at 0 s, 0.5 s and 1 s: the period is half a second
      (120 BPM) after the second and after the third tap. */
  lemma HalfSecondScenario(t: TT.Tapper<TimeVal>)
    ensures
      var t0 := TT.Reset(Ops, t);
      var t1 := TT.Tap(Ops, t0, TimeVal(0, 0));
      var t2 := TT.Tap(Ops, t1, TimeVal(0, 500000));
      var t3 := TT.Tap(Ops, t2, TimeVal(1, 0));
      && TT.PeriodUs(Ops, t2) == 500000 && TT.Bpm(Ops, t2) == 120.0
      && TT.PeriodUs(Ops, t3) == 500000 && TT.Bpm(Ops, t3) == 120.0
  {
    HalfSecondBaseline(t);
    HalfSecondSecondTap();
    HalfSecondThirdTap();
    HalfSecondQueries();
  }

  /** A clock that steps back between taps: readings at 0 s, 2 s and 1 s
      span one second over two intervals, so the period is half a second,
      as `timersub` yields -1 s for the second gap and `timeradd` nets the
      two gaps to 1 s. */
  lemma BackwardStepSession(t: TT.Tapper<TimeVal>)
    ensures TT.PeriodUs(Ops, TT.Session(Ops, t, [TimeVal(0, 0), TimeVal(2, 0), TimeVal(1, 0)])) == 500000
  {
    var s := [TimeVal(0, 0), TimeVal(2, 0), TimeVal(1, 0)];
    assert AllNormalised(s);
    PeriodIsMeanSpan(t, s);
  }
}
