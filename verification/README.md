# Tempo tapper model

A Dafny model of the core of TempoTapperLib, a small C library that
estimates a musical tempo from taps. The core is two parts.

The tempo-averaging accumulator is the `tempo_tapper` struct together with
`tt_new`, `tt_tap`, `tt_reset`, `tt_period_us` and `tt_bpm`.

- The struct is a triple: `prd_sum` holds the summed inter-tap intervals,
  `lst_t` the time of the last tap, and `taps` the number of counted taps.
- A `taps` value of -1 means "awaiting baseline". The first tap after a
  reset only records its timestamp.
- Every later tap adds the time elapsed since the previous tap to `prd_sum`.
- The period is `time_to_us(prd_sum) / taps`, truncating, or 0 before the
  second tap. The tempo is 60 000 000 / period, or 0 while the period is 0.

The accumulator is built on one of two platform time back-ends, each
providing `reset_time`, `add_time`, `sub_time` and `time_to_us`:

- POSIX: a `struct timeval` (seconds and microseconds), combined with the
  `timeradd` / `timersub` macros;
- Arduino: a 32-bit `unsigned long` tick count from `micros()`, with
  wrapping arithmetic.

## Layout

| file | module | contents |
|---|---|---|
| `time_source.dfy` | `TimeSource` | `TimeOps<T>`, the record of one back-end's `zero`/`add`/`sub`/`toUs`; `Sum` and arithmetic helper lemmas |
| `posix_time.dfy` | `PosixTime` | `TimeVal`, `timeradd`/`timersub`, `time_to_us` modulo 2^64 |
| `arduino_time.dfy` | `ArduinoTime` | `ULong` (0 ≤ x < 2^32) and its wrapping arithmetic |
| `tempo_tapper.dfy` | `TempoTapper` | the accumulator, generic over `TimeOps<T>`, and its history invariant |
| `posix_tapper.dfy` | `PosixTapper` | the accumulator on POSIX: exact mean interval, constant spacing, a worked session |
| `arduino_tapper.dfy` | `ArduinoTapper` | the accumulator on Arduino: periods across a wrap of `micros()` |

The compile-time platform selection becomes a value: the accumulator's
functions take a `TimeOps<T>` argument, and `PosixTime.Ops` and
`ArduinoTime.Ops` are the two instances.

The central invariant is `TempoTapper.Represents(ops, t, h)`. It holds when
the tapper `t` is exactly what the taps at timestamps `h` since the last
reset leave behind:

- `taps == |h| - 1`;
- `lst_t` is the last element of `h`;
- `prd_sum` is the back-end sum of the intervals between consecutive
  elements of `h`.

`tt_reset` establishes the invariant, and `tt_tap` extends the history by
one tap. Every period result follows from it.

## Model

| member | source | states |
|---|---|---|
| PosixTime.ResetTime | src/tempo_tapper_posix.cxx:60-64 | the reset timeval is normalised and denotes 0 µs |
| PosixTime.Add | src/tempo_tapper_posix.cxx:45-48 | `add_time` denotes the sum of the microseconds of its operands, and keeps `tv_usec` in [0, 1000000) when both operands are normalised |
| PosixTime.Sub | src/tempo_tapper_posix.cxx:50-53 | `sub_time` denotes the difference of the microseconds of its operands, and keeps `tv_usec` in [0, 1000000) when both operands are normalised |
| PosixTime.ToUs | src/tempo_tapper_posix.cxx:55-58 | `time_to_us` is below 2^64 and equals `tv_sec * 1000000 + tv_usec` whenever that value fits an `unsigned long` |
| PosixTime.MicrosDetermines | include/tempo_tapper.h:127-144 | two normalised timevals denoting the same number of microseconds are equal |
| PosixTime.ZeroIsIdentity | src/tempo_tapper_posix.cxx:45-64 | the reset value is an identity for `add_time` on both sides and for `sub_time` on the right |
| PosixTime.SubAddRoundTrip | src/tempo_tapper_posix.cxx:45-53 | on normalised values `sub_time` and `add_time` undo each other in both orders |
| PosixTime.SubNonNegative | src/tempo_tapper_posix.cxx:50-53 | the seconds of a difference are non-negative exactly when the first operand is not earlier than the second |
| PosixTime.ToUsAdditive | src/tempo_tapper_posix.cxx:45-48 | `time_to_us(add_time(a, b)) == time_to_us(a) + time_to_us(b)` while nothing leaves the `unsigned long` range |
| PosixTime.ToUsSubtractive | src/tempo_tapper_posix.cxx:50-53 | `time_to_us(sub_time(a, b)) == time_to_us(a) - time_to_us(b)` when a is not earlier than b |
| PosixTime.ToUsWrapsAdditively | src/tempo_tapper_posix.cxx:45-58 | for all timevals, `time_to_us` maps `add_time` to addition modulo 2^64 |
| PosixTime.ToUsWrapsSubtractively | src/tempo_tapper_posix.cxx:50-58 | for all timevals, `time_to_us` maps `sub_time` to subtraction modulo 2^64 |
| ArduinoTime.ResetTime | src/tempo_tapper_arduino.cxx:61-64 | the reset value converts to 0 µs |
| ArduinoTime.Add | src/tempo_tapper_arduino.cxx:46-49 | `add_time` is congruent to the true sum modulo 2^32: the true sum when it fits, the sum minus 2^32 when it does not |
| ArduinoTime.Sub | src/tempo_tapper_arduino.cxx:51-54 | `sub_time` is the value that `add_time` takes back to `a`: `a - b` when b ≤ a, `a - b + 2^32` otherwise |
| ArduinoTime.ToUs | src/tempo_tapper_arduino.cxx:56-59 | `time_to_us` of any tick value is below 2^32 |
| ArduinoTime.ZeroIsIdentity | src/tempo_tapper_arduino.cxx:46-64 | 0 is an identity for `add_time` on both sides and for `sub_time` on the right |
| ArduinoTime.SubAddRoundTrip | src/tempo_tapper_arduino.cxx:46-54 | `sub_time` and `add_time` undo each other for every pair of values, across a wrap too |
| ArduinoTime.ElapsedAcrossWrap | src/tempo_tapper_arduino.cxx:46-54 | a true duration shorter than 2^32 µs added to a reading is recovered exactly by `sub_time`, even if the clock wrapped |
| ArduinoTime.ToUsAdditive | src/tempo_tapper_arduino.cxx:46-59 | `time_to_us` maps `add_time` to addition modulo 2^32 |
| ArduinoTime.SubChain | src/tempo_tapper_arduino.cxx:46-54 | consecutive elapsed times add up: `(b - a) + (c - b) == c - a` in wrapping arithmetic |
| TempoTapper.Reset | src/tempo_tapper_common.cxx:83-87 | `tt_reset` leaves a tapper representing the empty history (`taps == -1`, `prd_sum` the zero value) with `lst_t` untouched |
| TempoTapper.Tap | src/tempo_tapper_common.cxx:46-59 | `tt_tap` increments `taps` by one, stores the reading as `lst_t`, and leaves `prd_sum` alone on the baseline tap |
| TempoTapper.New | src/tempo_tapper_common.cxx:61-70 | `tt_new` returns NULL exactly when `malloc` fails, and otherwise a tapper in the reset state |
| TempoTapper.PeriodUs | src/tempo_tapper_common.cxx:37-44 | `tt_period_us` is 0 while `taps < 1` and never exceeds `time_to_us(prd_sum)` |
| TempoTapper.Bpm | src/tempo_tapper_common.cxx:72-81 | `tt_bpm` is 0 when the period is 0, and otherwise positive and at most 60 000 000 |
| TempoTapper.PeriodIsTruncatedMean | src/tempo_tapper_common.cxx:42-43 | with `taps ≥ 1` the period p satisfies `p * taps ≤ time_to_us(prd_sum) < (p + 1) * taps`, i.e. is the truncating quotient |
| TempoTapper.BpmOfPeriod | src/tempo_tapper_common.cxx:72-81 | tempo times period is one minute in microseconds whenever there is a period |
| TempoTapper.TapAll | src/tempo_tapper_common.cxx:46-59 | repeated `tt_tap` counts every reading and ends with the last one as `lst_t` |
| TempoTapper.TapExtendsHistory | src/tempo_tapper_common.cxx:46-59 | `tt_tap` preserves the invariant: a tapper representing history h afterwards represents h followed by the reading |
| TempoTapper.TapAllExtendsHistory | src/tempo_tapper_common.cxx:46-59 | any sequence of taps appends its readings to the represented history |
| TempoTapper.SessionRepresents | src/tempo_tapper_common.cxx:46-87 | after `tt_reset` and taps at readings s, the tapper represents exactly s |
| TempoTapper.RepresentsDetermines | include/tempo_tapper.h:85-90 | a non-empty represented history determines all three fields of the tapper |
| TempoTapper.ResetForgetsPast | src/tempo_tapper_common.cxx:83-87 | after a reset and at least one tap, nothing of the earlier state, stale `lst_t` included, survives |
| TempoTapper.NoTempoBeforeSecondTap | include/tempo_tapper.h:89 | a new or reset tapper, and one that has only seen its baseline tap, reports period 0 and tempo 0 |
| TempoTapper.SessionPeriod | src/tempo_tapper_common.cxx:37-59 | after a session of n readings the period is 0 for n < 2 and otherwise the summed intervals in µs divided, truncating, by n - 1 |
| PosixTapper.Tap | src/tempo_tapper_common.cxx:46-59 | on POSIX, with a clock that did not run backwards, a counted tap adds exactly `now - lst_t` microseconds to `prd_sum` and keeps it normalised |
| PosixTapper.SumIntervalsMicros | src/tempo_tapper_common.cxx:51-55 | the accumulated `prd_sum` denotes the sum of the gaps between readings, and stays normalised |
| PosixTapper.AccumulatedMicros | src/tempo_tapper_posix.cxx:55-58 | `time_to_us` of the accumulated `prd_sum` equals the sum of the gaps, which is the span from first to last tap |
| PosixTapper.PeriodIsMeanSpan | src/tempo_tapper_common.cxx:37-44 | on POSIX the period after a session is its span divided, truncating, by the number of intervals, whenever the span lies in [0, 2^63); the clock may step back in between |
| PosixTapper.PeriodIsMeanInterval | src/tempo_tapper_common.cxx:37-44 | under the same conditions the period is the truncated mean of the session's gaps |
| PosixTapper.BackwardStepSession | src/tempo_tapper_common.cxx:46-59 | readings at 0 s, 2 s and 1 s, a backward step included, give a period of 500000 µs |
| PosixTapper.ConstantSpacingPeriod | src/tempo_tapper_common.cxx:37-59 | taps at a constant spacing of d µs give a period of exactly d |
| PosixTapper.ConstantSpacingTempo | src/tempo_tapper_common.cxx:72-81 | taps at a constant spacing of d µs give a tempo of exactly 60 000 000 / d |
| PosixTapper.HalfSecondBaseline | src/tempo_tapper_common.cxx:51-58 | the baseline tap at 0 s after a reset yields `(0 s, 0 s, taps 0)` |
| PosixTapper.HalfSecondSecondTap | src/tempo_tapper_common.cxx:51-58 | the tap at 0.5 s then yields `(0.5 s, 0.5 s, taps 1)` |
| PosixTapper.HalfSecondThirdTap | src/tempo_tapper_common.cxx:51-58 | the tap at 1 s then yields `(1 s, 1 s, taps 2)` |
| PosixTapper.HalfSecondBorrowAndCarry | src/tempo_tapper_posix.cxx:45-53 | 1 s minus 0.5 s borrows a second, and 0.5 s plus 0.5 s carries one |
| PosixTapper.HalfSecondQueries | src/tempo_tapper_common.cxx:37-81 | one and two half-second intervals give a period of 500000 µs and 120 BPM |
| PosixTapper.HalfSecondScenario | src/tempo_tapper_common.cxx:37-87 | reset and taps at 0 s, 0.5 s, 1 s give 500000 µs and 120 BPM after the second and third taps |
| ArduinoTapper.Tap | src/tempo_tapper_common.cxx:46-59 | on Arduino a counted tap adds `now - lst_t`, or `2^32 - lst_t + now` when the clock wrapped in between, to `prd_sum` modulo 2^32 |
| ArduinoTapper.SumIntervalsIsSpan | src/tempo_tapper_arduino.cxx:46-54 | the accumulated `prd_sum` is the wrapped elapsed time from the first to the last tap |
| ArduinoTapper.GapsSumWraps | src/tempo_tapper_arduino.cxx:46-54 | the measured gaps add up to that wrapped span modulo 2^32 |
| ArduinoTapper.PeriodOfSession | src/tempo_tapper_common.cxx:37-44 | the period after a session is the sum of the measured gaps, reduced modulo 2^32, divided by the number of intervals |
| ArduinoTapper.PeriodIsMeanInterval | src/tempo_tapper_common.cxx:37-44 | while the gaps sum to less than 2^32 µs, the period is their exact truncated mean |
| ArduinoTapper.Readings | src/tempo_tapper_arduino.cxx:41-44 | a `micros()` reading is the one 32-bit value congruent, modulo 2^32, to the unwrapped microsecond count |
| ArduinoTapper.ElapsedOfReadings | src/tempo_tapper_arduino.cxx:41-54 | `sub_time` of two `micros()` readings recovers the unwrapped elapsed count when it is below 2^32 µs |
| ArduinoTapper.PeriodFromCounts | src/tempo_tapper_common.cxx:37-59 | a session whose unwrapped counts span less than 2^32 µs gives the truncated mean unwrapped interval, whether or not `micros()` wrapped |
| ArduinoTapper.ConstantSpacingPeriod | src/tempo_tapper_common.cxx:37-59 | taps every d µs give a period of exactly d, across a wrap too |
| ArduinoTapper.WrapScenario | src/tempo_tapper_common.cxx:37-81 | taps 0.25 s before a wrap, 0.25 s after and 0.5 s later give 500000 µs and 120 BPM |

## Left out

- `current_time` (`gettimeofday`, `micros()`): a clock read is foreign I/O. Each tap takes the reading as its `now` argument. On Arduino, `ArduinoTapper.Readings` relates a reading to the unwrapped count.
- ArduinoTapper.Readings: `times` is the unwrapped `micros()` count, not physical time. `micros()` advances in 4 µs steps on 16 MHz AVR boards, and its drift against real time is not modelled.
- `malloc` in `tt_new`: modelled as a success flag plus the uninitialised memory it returned. `tt_reset` never writes `lst_t`, so a new tapper's `lst_t` is whatever that memory held.
- `free` and pointer lifetime: not modelled. A tapper is an immutable value.
- Float rounding in `tt_bpm`: the tempo is computed over the reals.
- The 16-bit `int` of `taps` on AVR targets: `taps` is unbounded. It would overflow after 32 767 taps without a reset.
- `unsigned long` on POSIX is taken as 64 bits wide (LP64). A 32-bit `long` is not modelled.
- PosixTime.ToUs: the signed overflow of `tv_sec * 1000000` in `time_to_us` is undefined behaviour in C. The model wraps the exact value modulo 2^64, and the session lemmas require the accumulated span to stay below 2^63.
- PosixTapper.Tap: requires that the clock did not run backwards since the previous tap. This single-tap contract is the only one with a monotonic-clock `requires`. `TempoTapper.Tap` has none. The POSIX session lemmas (`PosixTapper.AccumulatedMicros`, `PeriodIsMeanSpan`, `PeriodIsMeanInterval`) allow backward steps between taps, as long as the span from the first to the last reading is non-negative and below 2^63 µs.
- The `timeradd` / `timersub` macros come from the C library's <sys/time.h>, which is not part of this model. They are modelled after their usual definition: a field-wise sum or difference with a single carry or borrow of one second.
- The C++ wrapper (include/tempo_tapper_cpp.h, src/tempo_tapper_cpp.cxx) delegates to the C functions and adds no behaviour.
- The example programs (terminal and Arduino front-ends) are user-interface and hardware loops.
