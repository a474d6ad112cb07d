/** The timer 2 overflow interrupt as a function on the three counters it
    updates: the time of day in milliseconds, the start-of-run marker and the
    sub-tick remainder counter. The class in firmware.dfy performs the same
    update in place; this module proves what repeated ticks do. */
module TickAccumulator {
  import opened Ints
  import opened TimeOfDay

  /** CPU clock (Hz), timer 2 prescaler and the 8-bit timer's period in counts:
      one overflow lasts 1024 * 256 / 14,745,600 s, about 17.78 ms. */
  const F_CPU: int := 14_745_600
  const PRESCALER: int := 1024
  const TIMER_COUNTS: int := 256

  /** Whole milliseconds credited on every overflow. */
  const TICK_MS: int := 17
  /** After this many overflows the accumulated fractions are made up... */
  const CORRECTION_TICKS: int := 57
  /** ...by this many extra milliseconds. */
  const CORRECTION_MS: int := 44
  /** Time at which the day wraps to 0 (23:59:59.000). */
  const WRAP_MS: int := 86_399_000

  datatype Counters = Counters(timeMs: uint32, startMs: uint32, remainder: uint8)

  /** The state every tick leaves behind: time before the wrap point, never
      before the start marker, and a remainder counter below the threshold. */
  predicate Inv(c: Counters)
  {
    c.timeMs < WRAP_MS && c.startMs <= c.timeMs && c.remainder < CORRECTION_TICKS
  }

  /** One timer overflow: bump the `uint8_t` remainder counter, add 17 ms to the
      `uint32_t` time, add the 44 ms correction and clear the counter once it
      reaches 57, and reset time and start marker together at the wrap point.
      Whatever the counters were, the time ends below the wrap point and the
      remainder counter below 57; from a counter below 57 and a time below the
      wrap point the 32-bit addition never overflows, the time advances by
      exactly 17 ms (61 ms on the tick that finds the counter at 56) unless it
      reaches the wrap point, and the start marker only ever changes by being
      reset with the time. */
  function TickStep(c: Counters): (r: Counters)
    ensures r.timeMs < WRAP_MS && r.remainder < CORRECTION_TICKS
    ensures r.startMs == c.startMs || (r.startMs == 0 && r.timeMs == 0)
    ensures c.remainder < CORRECTION_TICKS ==> r.remainder == (c.remainder + 1) % 57
    ensures c.timeMs < WRAP_MS && c.remainder < CORRECTION_TICKS ==>
      var advanced := c.timeMs + TICK_MS + (if c.remainder == CORRECTION_TICKS - 1 then CORRECTION_MS else 0);
      if advanced >= WRAP_MS then r.timeMs == 0 && r.startMs == 0
      else r.timeMs == advanced && r.startMs == c.startMs
    ensures Inv(c) ==> Inv(r)
  {
    var counted := U8(c.remainder + 1);
    var added := U32(c.timeMs + 17);
    var corrected := if counted >= 57 then U32(added + 44) else added;
    var remainder := if counted >= 57 then 0 else counted;
    if corrected >= 86_399_000 then Counters(0, 0, remainder)
    else Counters(corrected, c.startMs, remainder)
  }

  /** The counters after `n` consecutive overflows. */
  function Ticks(c: Counters, n: nat): (r: Counters)
    ensures Inv(c) ==> Inv(r)
    ensures n > 0 ==> r.timeMs < WRAP_MS && r.remainder < CORRECTION_TICKS
  {
    if n == 0 then c else TickStep(Ticks(c, n - 1))
  }

  /** Running `m` ticks and then `n` more is running `m + n` ticks. */
  lemma {:induction false} TicksCompose(c: Counters, m: nat, n: nat)
    ensures Ticks(c, m + n) == Ticks(Ticks(c, m), n)
  {
    if n > 0 {
      TicksCompose(c, m, n - 1);
    }
  }

  /** Inside one correction cycle each tick adds exactly 17 ms and counts one. */
  lemma {:induction false} TicksWithinCycle(c: Counters, k: nat)
    requires c.remainder == 0 && k < CORRECTION_TICKS
    requires c.timeMs + TICK_MS * k < WRAP_MS
    ensures Ticks(c, k) == Counters(c.timeMs + TICK_MS * k, c.startMs, k)
  {
    if k > 0 {
      TicksWithinCycle(c, k - 1);
    }
  }

  /** Drift correction: from a cleared remainder counter, 57 overflows with no
      wrap in between advance the time by 57 * 17 + 44 = 1013 ms and leave the
      counter cleared again. The true duration of 57 overflows at 14.7456 MHz
      with prescaler 1024 is 1013.33 ms, so the credit is that duration rounded
      down to whole milliseconds. */
  lemma DriftCorrection(c: Counters)
    requires c.remainder == 0
    requires c.timeMs + TICK_MS * CORRECTION_TICKS + CORRECTION_MS < WRAP_MS
    ensures Ticks(c, CORRECTION_TICKS) == Counters(c.timeMs + 1013, c.startMs, 0)
    ensures 1013 * F_CPU <= CORRECTION_TICKS * PRESCALER * TIMER_COUNTS * 1000 < 1014 * F_CPU
  {
    TicksWithinCycle(c, CORRECTION_TICKS - 1);
  }

  /** Long-run rate: `n` whole correction cycles without a wrap advance the time
      by 1013 ms each and leave the remainder counter cleared. */
  lemma {:induction false} CorrectionCycles(c: Counters, n: nat)
    requires c.remainder == 0
    requires c.timeMs + 1013 * n < WRAP_MS
    ensures Ticks(c, CORRECTION_TICKS * n) == Counters(c.timeMs + 1013 * n, c.startMs, 0)
  {
    if n > 0 {
      CorrectionCycles(c, n - 1);
      var mid := Ticks(c, CORRECTION_TICKS * (n - 1));
      TicksCompose(c, CORRECTION_TICKS * (n - 1), CORRECTION_TICKS);
      DriftCorrection(mid);
    }
  }

  /** Wraparound: a tick whose additions reach the wrap point resets the time
      and the start marker to 0 together, and one that does not leaves the
      start marker alone. */
  lemma WrapResetsBoth(c: Counters)
    requires Inv(c)
    ensures var r := TickStep(c);
            (c.timeMs + TICK_MS + (if c.remainder == CORRECTION_TICKS - 1 then CORRECTION_MS else 0) >= WRAP_MS)
            <==> (r.timeMs == 0 && r.startMs == 0)
  {
  }

  /** Because the wrap point is 86,399,000 rather than 86,400,000, a clock in a
      reachable state never holds a time in the last second of the day: the
      decode of its time is never 23:59:59. */
  lemma LastSecondNeverShown(c: Counters)
    requires Inv(c)
    ensures DecodeTime(ToInt32(c.timeMs)) != DigitsOf(23, 59, 59)
  {
    var d := DecodeTime(ToInt32(c.timeMs));
    DecodeTimeDigits(ToInt32(c.timeMs));
    assert d.Hours() * 3600 + d.Minutes() * 60 + d.Seconds() < 86_399;
  }
}
