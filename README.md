# One-LED clock: a Dafny model

This models the firmware of an 8-bit AVR clock (`oneledclock.c`). The clock
keeps the time of day in milliseconds, advancing it from the timer 2 overflow
interrupt. When a button is pressed, the main loop blinks the hours and the
minutes on one LED.

The model has five modules:

- `Ints` (ints.dfy): the C integer widths the firmware uses (`uint8_t`,
  `uint16_t`, `uint32_t`, `int32_t`, and the `int8_t` loop counter). Every
  wrapping or narrowing conversion is written out. avr-gcc's modular
  conversion to signed types is the one modelled.
- `TimeOfDay` (time_of_day.dfy): `get_ms`, and the decode of a millisecond
  snapshot into six digits as `tell_time` does it.
- `TickAccumulator` (tick.dfy): the timer interrupt as a pure step on the
  three counters (`the_time_ms`, `start_ms`, `remainder_counter`), plus
  lemmas about runs of ticks: drift correction, long-run rate and wraparound.
- `Blink` (blink.dfy): `blink_for`, `blink_n_times` and `blink_number`. Each
  `delay_ms` becomes an `On`, `Off` or `Pause` event with its duration. A
  reader that counts pulses is the partner of this encoding, and the round
  trip proves that the blinks carry exactly the hour and minute digits.
- `Firmware` (firmware.dfy): the volatile globals as class `Clock`. The
  timer interrupt, the pin-change interrupt and one pass of the main loop are
  methods that update it in place, each one atomic.

The model follows the code's live constants:

- the correction is 57 overflows plus 44 ms. A 9-overflow, 7 ms correction
  is present only as commented-out code (oneledclock.c:146-149);
- the wrap threshold is 86,399,000 ms;
- the start time is 22:01:30 (oneledclock.c:184). The comment
  `get_ms(21,30,0)` at oneledclock.c:49 is an example of use, not a call.

Because the wrap threshold is 86,399,000 rather than 86,400,000, the clock
never shows 23:59:59: the day is one second short (`LastSecondNeverShown`).
The model keeps this behaviour as written.

## Model

| member | source | states |
|---|---|---|
| `TimeOfDay.GetMs` | oneledclock.c:50-52 | For hour < 24, minute < 60, second < 60, nothing wraps. The result is exactly (3600·h + 60·m + s)·1000. It is a whole number of seconds in [0, 86,400,000), so it fits the `int32_t` return type. |
| `TimeOfDay.DecodeTime` | oneledclock.c:78-98 | The `hours < 10` / `minutes < 10` branches and the `uint8_t`/`uint16_t` narrowings change nothing. The result equals the plain `/10`, `%10` split of the whole hours, the minutes past the hour and the seconds past the minute, taken from the snapshot's whole seconds as an `unsigned long`. |
| `TimeOfDay.DecodeTimeDigits` | oneledclock.c:78-98 | For any snapshot, the minute and second digits are proper (tens ≤ 5, ones ≤ 9) and hours-ones ≤ 9. Hours·3600 + minutes·60 + seconds equals the snapshot's whole seconds. A snapshot below 86,400,000 gives hours 0..23 (tens ≤ 2). |
| `TimeOfDay.DecodeGetMs` | oneledclock.c:78-98 | Round trip: decoding `get_ms(h, m, s)` for a valid time of day gives back exactly the digits of h, m and s. |
| `TickAccumulator.TickStep` | oneledclock.c:137-163 | After any tick the time is below 86,399,000 and the remainder counter below 57. From a counter < 57 and a time below the wrap point, the `uint32_t` addition never overflows, the counter becomes (c+1) mod 57, and the time advances by exactly 17 ms (61 ms on the tick that finds the counter at 56) or both time and start marker become 0. The start marker changes only by that reset. The invariant is preserved. |
| `TickAccumulator.Ticks` | oneledclock.c:137-163 | Any number of ticks preserves the invariant (time < wrap point, start ≤ time, counter < 57). At least one tick puts time and counter in range whatever the start. |
| `TickAccumulator.TicksCompose` | oneledclock.c:137-163 | m ticks followed by n ticks are m + n ticks. |
| `TickAccumulator.TicksWithinCycle` | oneledclock.c:143-144 | From a cleared counter, each of the first 56 ticks adds exactly 17 ms and counts one. |
| `TickAccumulator.DriftCorrection` | oneledclock.c:139-157 | From a cleared counter with no wrap, 57 ticks advance the time by exactly 1013 ms and clear the counter again. 1013 ms is the true duration of 57 overflows (14.7456 MHz, prescaler 1024, 8-bit timer), rounded down to whole ms. |
| `TickAccumulator.CorrectionCycles` | oneledclock.c:151-157 | n whole correction cycles without a wrap advance the time by exactly 1013·n ms. |
| `TickAccumulator.WrapResetsBoth` | oneledclock.c:159-161 | A tick resets both time and start marker to 0 if and only if the time after the additions reaches 86,399,000. |
| `TickAccumulator.LastSecondNeverShown` | oneledclock.c:159 | In any reachable state, the decoded time is never 23:59:59. |
| `Blink.Pulses` | oneledclock.c:21-33 | n pulses of `ms` are exactly 2n events. On(ms) and Off(ms) alternate, starting with On. |
| `Blink.BlinkNTimes` | oneledclock.c:28-33 | The counting loop produces exactly `Pulses(n, 255)` for every `uint8_t` n, with the counter widened as the finding below explains. |
| `Blink.CounterClimbs` | oneledclock.c:29-30 | For its first 127 passes, the `int8_t` loop counter equals the number of passes. |
| `Blink.Int8CounterNeverReaches` | oneledclock.c:29-30 | For n ≥ 128, the `int8_t` counter is below n after every number of passes, so the loop never ends. It counts the passes up to 127. The pass after it holds 127 takes it to -128. |
| `Blink.DigitBlinks` | oneledclock.c:34-47 | Digit 0 is exactly one 500 ms pulse. Digit N ≥ 1 is exactly N pulses of 255 ms. Each on-period is followed by an off-period of the same length. |
| `Blink.TimeBlinksIgnoresSeconds` | oneledclock.c:109-112 | What is blinked does not depend on the seconds digits. |
| `Blink.ReadDigitBlinks` | oneledclock.c:34-47 | A digit's blinks, followed by a wait or by nothing, read back as that digit. |
| `Blink.ReadNumberBlinks` | oneledclock.c:34-47 | `blink_number(tens, ones)` reads back as (tens, ones): tens pulses, a 255 ms pause, ones pulses. |
| `Blink.ReadTimeBlinks` | oneledclock.c:109-112 | The display sequence is hours, a 1000 ms pause, minutes, a 1000 ms pause, and nothing else. Reading it gives back exactly the hour and minute digits. |
| `Firmware.Clock.constructor` | oneledclock.c:184 | Start-up loads time and start marker with `get_ms(22, 1, 30)` = 79,290,000. It decodes to 22:01:30, with the counter and wake flag clear and the invariant established. |
| `Firmware.Clock.Tick` | oneledclock.c:137-163 | The timer interrupt performs `TickStep` in place, never touches `fire`, and preserves the invariant. |
| `Firmware.Clock.PinChange` | oneledclock.c:55-57 | The pin-change interrupt sets `fire` to 1 and changes nothing else. |
| `Firmware.Clock.TellTime` | oneledclock.c:59-116 | One snapshot of the time is decoded, and exactly its hour and minute digits are blinked, in the `TimeBlinks` order. `fire` ends 0, the counters are untouched and the invariant is kept. |
| `Firmware.Clock.LoopPass` | oneledclock.c:201-204 | With `fire == 1`, the display sequence of the current time runs once and `fire` ends 0. Otherwise there are no events and `fire` keeps its value. The invariant is kept either way. |
| `Firmware.InitialTime` | oneledclock.c:184 | `get_ms(22, 1, 30)` is 79,290,000 ms, and that snapshot decodes to 22:01:30. |
| `Firmware.DisplayShowsTime` | oneledclock.c:59-116 | For any time below the wrap point, the blinks of its snapshot read back as its hour and minute digits. The hour is 0..23, and the decoded hours, minutes and seconds add up to the time's whole seconds. |
| `Firmware.TickThenPress` | oneledclock.c:186-205 | A tick-only wake shows nothing. An edge gives exactly one readout of the current hours and minutes. The next pass shows nothing. The flag is clear afterwards and the invariant holds. |

## Findings

| source | as written | input that shows it | evidently intended | confidence | as-written member | corrected member |
|---|---|---|---|---|---|---|
| oneledclock.c:29-32 | The loop counter of `blink_n_times` is an `int8_t`, compared against a `uint8_t` n. `i++` turns 127 into -128. | `blink_n_times(128)`, or any n ≥ 128: the counter never reaches n and the loop never ends. | A counter as wide as n, so the loop makes n passes for every `uint8_t` n. | not executed; `tell_time` only passes digits 0..9 (hours tens ≤ 2), so the firmware as shipped never reaches it | `Blink.Int8CounterNeverReaches` | `Blink.BlinkNTimes` |

## Left out

- LCD output (the stream set-up and the `lcd_*` / `fprintf_P` calls at lines 60, 100-106 and 115): it is a write-only text sink in a library that is not part of this model. The six digits it would print are the `Digits` value `TellTime` decodes.
- Register and pin set-up (`SetupTimer2`, `PCICR`, `PCMSK1`, `DDRC`, `PORTC`): hardware configuration. The writes to the LED pin PC4 are the `On`/`Off` events. The button pull-up on PC3 and the pin-change mask only enable the interrupt that `PinChange` models.
- The sleep sequence (`set_sleep_mode`, `cli`/`sei`, `sleep_cpu`): it exists to avoid races between interrupts and sleep, which is concurrency. Each interrupt and each loop pass is one atomic step instead. So the model does not capture a button edge during the blinking, which line 114 would clear and lose, nor ticks that fire while the time is shown.
- Tearing of the 32-bit read of `the_time_ms` under preemption (line 61): concurrency. The snapshot is one atomic read.
- Real `delay_ms` timing: only the durations appear, as event parameters.
- Commented-out code (the per-hour drift adjustment, the 9-overflow/7 ms correction, the early-return LCD debug block): not live behaviour.
- The floating-point prescaler reasoning in the comments: it appears only as the integer bound in `DriftCorrection`.
- GetMs: the contract speaks only of a valid time of day. For other arguments the body performs the 32-bit wrap, but no property of the wrapped result is stated.
- DigitBlinks: takes any natural digit and gives N pulses for every N ≥ 1. In the source a `uint8_t` digit of 128 or more would hang `blink_n_times` (see Findings). `DecodeTime` never yields a digit above 119, so no reachable call differs.
- BlinkNTimes: models the intended, terminating loop. The as-written `int8_t` loop cannot be written as a terminating Dafny method, so its behaviour is captured by `CounterAfter` and the two lemmas about it.
- `start_ms` is read only by the LCD output. The model keeps it and proves it resets together with the time and never exceeds it.
