/**
  The tempo-averaging accumulator (`tempo_tapper` and the `tt_*` functions),
  generic over the platform time arithmetic.

  A tapper is the triple (`prd_sum`, `lst_t`, `taps`). `taps == -1` means
  "awaiting baseline": the first tap after a reset only records its
  timestamp. Every later tap adds the time elapsed since the previous tap to
  `prd_sum`, so the period is the truncated mean of the recorded intervals.
 */
module TempoTapper {
  import opened TimeSource

  /** The `taps` value of a tapper that has seen no tap since its reset. */
  const AwaitingBaseline: int := -1

  /** 60 * S_TO_US: microseconds per minute. */
  const UsPerMinute: int := 60 * UsPerSec

  /** The `tempo_tapper` struct. */
  datatype Tapper<T> = Tapper(prdSum: T, lstT: T, taps: int)

  /** The result of `tt_new`: NULL, or a pointer to an initialised tapper. */
  datatype Allocation<T> = Null | Allocated(tapper: Tapper<T>)

  /*
    The history abstraction. A tapper "represents" the timestamps `h` of the
    taps since its last reset when `taps` counts all but the first of them,
    `lst_t` is the last of them, and `prd_sum` is the platform sum of the
    intervals between consecutive ones.
  */

  /** The platform sum of the intervals between consecutive timestamps of
      `h`, accumulated in tap order starting from the reset value. */
  function SumIntervals<T>(ops: TimeOps<T>, h: seq<T>): T
  {
    if |h| <= 1 then ops.zero
    else ops.add(SumIntervals(ops, h[..|h| - 1]), ops.sub(h[|h| - 1], h[|h| - 2]))
  }

  ghost predicate Represents<T>(ops: TimeOps<T>, t: Tapper<T>, h: seq<T>)
  {
    && t.taps == |h| - 1
    && (|h| > 0 ==> t.lstT == h[|h| - 1])
    && t.prdSum == SumIntervals(ops, h)
  }

  /** `tt_reset`: back to "awaiting baseline" with an empty sum. `lst_t` is
      not touched; it is stale until the next tap overwrites it. */
  function Reset<T>(ops: TimeOps<T>, t: Tapper<T>): (r: Tapper<T>)
    ensures Represents(ops, r, [])
    ensures r.lstT == t.lstT
  {
    t.(taps := AwaitingBaseline, prdSum := ops.zero)
  }

  /** `tt_tap` with the clock reading `now`. */
  function Tap<T>(ops: TimeOps<T>, t: Tapper<T>, now: T): (r: Tapper<T>)
    ensures r.taps == t.taps + 1
    ensures r.lstT == now
    ensures t.taps < 0 ==> r.prdSum == t.prdSum
  {
    var prdSum := if t.taps >= 0 then ops.add(t.prdSum, ops.sub(now, t.lstT)) else t.prdSum;
    Tapper(prdSum, now, t.taps + 1)
  }

  /** `tt_new`: `mallocOk` is whether `malloc` succeeded, and `raw` is the
      uninitialised memory it returned. */
  function New<T>(ops: TimeOps<T>, mallocOk: bool, raw: Tapper<T>): (r: Allocation<T>)
    ensures r.Null? <==> !mallocOk
    ensures r.Allocated? ==> Represents(ops, r.tapper, [])
  {
    if mallocOk then Allocated(Reset(ops, raw)) else Null
  }

  /** `tt_period_us`: the truncated mean of the recorded intervals in
      microseconds, or 0 while fewer than two taps have been made. */
  function PeriodUs<T>(ops: TimeOps<T>, t: Tapper<T>): (r: nat)
    ensures t.taps < 1 ==> r == 0
    ensures r <= ops.toUs(t.prdSum)
  {
    if t.taps < 1 then 0
    else
      DivAtMost(ops.toUs(t.prdSum), t.taps);
      ops.toUs(t.prdSum) / t.taps
  }

  /** `tt_bpm`, over the reals: beats per minute for the current period, or
      0 while there is no period. */
  function Bpm<T>(ops: TimeOps<T>, t: Tapper<T>): (r: real)
    ensures PeriodUs(ops, t) == 0 ==> r == 0.0
    ensures PeriodUs(ops, t) > 0 ==> 0.0 < r <= UsPerMinute as real
  {
    var us := PeriodUs(ops, t);
    if us == 0 then 0.0 else UsPerMinute as real / us as real
  }

  /** Once two taps were made, the period is the mean interval rounded
      down: `taps` periods fit into the accumulated time, `taps + 1` do not. */
  lemma PeriodIsTruncatedMean<T>(ops: TimeOps<T>, t: Tapper<T>)
    requires t.taps >= 1
    ensures PeriodUs(ops, t) * t.taps <= ops.toUs(t.prdSum) < (PeriodUs(ops, t) + 1) * t.taps
  {
  }

  /** The tempo and the period are inverse to each other: their product is
      one minute in microseconds whenever there is a period. */
  lemma BpmOfPeriod<T>(ops: TimeOps<T>, t: Tapper<T>)
    ensures PeriodUs(ops, t) > 0 ==> Bpm(ops, t) * PeriodUs(ops, t) as real == UsPerMinute as real
  {
  }

  /** Tapping each reading of `s` in turn. */
  function TapAll<T>(ops: TimeOps<T>, t: Tapper<T>, s: seq<T>): (r: Tapper<T>)
    ensures r.taps == t.taps + |s|
    ensures |s| > 0 ==> r.lstT == s[|s| - 1]
    decreases |s|
  {
    if |s| == 0 then t else TapAll(ops, Tap(ops, t, s[0]), s[1..])
  }

  /** A tapping session: a reset followed by taps at the readings `s`. */
  function Session<T>(ops: TimeOps<T>, t: Tapper<T>, s: seq<T>): Tapper<T>
  {
    TapAll(ops, Reset(ops, t), s)
  }

  /** One tap appends its reading to the represented history: the
      invariant `taps >= -1` and "prd_sum is the sum of the `max(taps, 0)`
      most recent intervals" is preserved. */
  lemma TapExtendsHistory<T>(ops: TimeOps<T>, t: Tapper<T>, h: seq<T>, now: T)
    requires Represents(ops, t, h)
    ensures Represents(ops, Tap(ops, t, now), h + [now])
  {
    var h' := h + [now];
    assert h'[..|h'| - 1] == h;
  }

  /** Any number of taps append their readings to the represented history. */
  lemma {:induction false} TapAllExtendsHistory<T>(ops: TimeOps<T>, t: Tapper<T>, h: seq<T>, s: seq<T>)
    requires Represents(ops, t, h)
    ensures Represents(ops, TapAll(ops, t, s), h + s)
    decreases |s|
  {
    if |s| > 0 {
      TapExtendsHistory(ops, t, h, s[0]);
      TapAllExtendsHistory(ops, Tap(ops, t, s[0]), h + [s[0]], s[1..]);
      assert h + [s[0]] + s[1..] == h + s;
    } else {
      assert h + s == h;
    }
  }

  /** After a session the tapper represents exactly the session's readings. */
  lemma SessionRepresents<T>(ops: TimeOps<T>, t: Tapper<T>, s: seq<T>)
    ensures Represents(ops, Session(ops, t, s), s)
  {
    TapAllExtendsHistory(ops, Reset(ops, t), [], s);
    assert [] + s == s;
  }

  /** A represented history determines the tapper, except for the stale
      `lst_t` of an empty history. */
  lemma RepresentsDetermines<T>(ops: TimeOps<T>, t1: Tapper<T>, t2: Tapper<T>, h: seq<T>)
    requires Represents(ops, t1, h) && Represents(ops, t2, h)
    requires |h| > 0
    ensures t1 == t2
  {
  }

  /** Nothing before a reset survives the first tap after it: sessions
      with the same readings end in the same tapper, whatever state (and
      whatever stale `lst_t`) they started from. */
  lemma ResetForgetsPast<T>(ops: TimeOps<T>, t1: Tapper<T>, t2: Tapper<T>, s: seq<T>)
    requires |s| > 0
    ensures Session(ops, t1, s) == Session(ops, t2, s)
  {
    SessionRepresents(ops, t1, s);
    SessionRepresents(ops, t2, s);
    RepresentsDetermines(ops, Session(ops, t1, s), Session(ops, t2, s), s);
  }

  /** A freshly reset or freshly allocated tapper reports no period and no
      tempo, and neither does one that has seen only its baseline tap. */
  lemma NoTempoBeforeSecondTap<T>(ops: TimeOps<T>, t: Tapper<T>, now: T)
    ensures PeriodUs(ops, Reset(ops, t)) == 0 && Bpm(ops, Reset(ops, t)) == 0.0
    ensures PeriodUs(ops, Tap(ops, Reset(ops, t), now)) == 0
    ensures Bpm(ops, Tap(ops, Reset(ops, t), now)) == 0.0
    ensures New(ops, true, t) == Allocated(Reset(ops, t))
  {
  }

  /** The period after a session is the platform's microsecond value of the
      summed intervals divided, truncating, by the number of intervals. */
  lemma SessionPeriod<T>(ops: TimeOps<T>, t: Tapper<T>, s: seq<T>)
    ensures |s| < 2 ==> PeriodUs(ops, Session(ops, t, s)) == 0
    ensures |s| >= 2 ==> PeriodUs(ops, Session(ops, t, s)) == ops.toUs(SumIntervals(ops, s)) / (|s| - 1)
  {
    SessionRepresents(ops, t, s);
  }

  /** `SessionPeriod` for a session whose summed intervals are known to
      amount to `us` microseconds. */
  lemma SessionPeriodIs<T>(ops: TimeOps<T>, t: Tapper<T>, s: seq<T>, us: nat)
    requires |s| >= 2
    requires ops.toUs(SumIntervals(ops, s)) == us
    ensures PeriodUs(ops, Session(ops, t, s)) == us / (|s| - 1)
  {
    SessionPeriod(ops, t, s);
  }
}
