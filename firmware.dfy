/** The firmware's shared state and its three entry points: the timer 2
    overflow interrupt, the pin-change interrupt and one pass of the main loop.
    Each runs as one atomic step on the same object. */
module Firmware {
  import opened Ints
  import opened TimeOfDay
  import opened TickAccumulator
  import opened Blink

  /** The volatile globals `the_time_ms`, `start_ms`, `remainder_counter` and
      `fire`. */
  class Clock {
    var timeMs: uint32
    var startMs: uint32
    var remainderCounter: uint8
    var fire: uint8

    /** The counters the timer interrupt owns. */
    function State(): Counters
      reads this
    {
      Counters(timeMs, startMs, remainderCounter)
    }

    /** Time before the wrap point and not before the start marker, remainder
        counter below 57, and the wake flag either clear or set. */
    ghost predicate Valid()
      reads this
    {
      Inv(State()) && fire <= 1
    }

    /** Start-up in `main`: the globals start at 0, then the time and the start
        marker are both loaded with `get_ms(22, 1, 30)`, which decodes to
        22:01:30. */
    constructor ()
      ensures Valid()
      ensures timeMs == startMs == 79_290_000 && remainderCounter == 0 && fire == 0
      ensures DecodeTime(ToInt32(timeMs)) == DigitsOf(22, 1, 30)
    {
      timeMs, startMs, remainderCounter, fire := 0, 0, 0, 0;
      InitialTime();
      var initialMs := U32(GetMs(22, 1, 30));
      timeMs := initialMs;
      startMs := initialMs;
      assert ToInt32(initialMs) == 79_290_000;
    }

    /** `ISR(TIMER2_OVF_vect)`: performs `TickStep` in place and leaves the wake
        flag alone. */
    method Tick()
      modifies this`timeMs, this`startMs, this`remainderCounter
      ensures State() == TickStep(old(State()))
      ensures fire == old(fire)
      ensures old(Valid()) ==> Valid()
    {
      remainderCounter := U8(remainderCounter + 1);
      timeMs := U32(timeMs + TICK_MS);
      if remainderCounter >= CORRECTION_TICKS {
        timeMs := U32(timeMs + CORRECTION_MS);
        remainderCounter := 0;
      }
      if timeMs >= WRAP_MS {
        timeMs := 0;
        startMs := 0;
      }
    }

    /** `ISR(PCINT1_vect)`: any edge on the button pin sets the wake flag and
        does nothing else. */
    method PinChange()
      modifies this`fire
      ensures fire == 1
      ensures old(Valid()) ==> Valid()
    {
      fire := 1;
    }

    /** `tell_time` without its display output: one snapshot of the time is
        decoded, its hours and minutes are blinked, and the wake flag is
        cleared. */
    method TellTime() returns (events: seq<Event>)
      modifies this`fire
      ensures fire == 0
      ensures events == TimeBlinks(DecodeTime(ToInt32(timeMs)))
      ensures old(Valid()) ==> Valid()
    {
      var snapshotMs := ToInt32(timeMs);
      var d := DecodeTime(snapshotMs);
      events := BlinkNumber(d.hoursTen, d.hoursOne);
      events := events + [Pause(GROUP_GAP_MS)];
      events := events + BlinkNumber(d.minutesTen, d.minutesOne);
      events := events + [Pause(GROUP_GAP_MS)];
      fire := 0;
      assert State() == old(State());
    }

    /** One pass of the `while (1)` loop in `main` after the processor wakes:
        with the wake flag set the display sequence runs exactly once and the
        flag ends clear; otherwise (a timer wake) nothing observable happens. */
    method LoopPass() returns (events: seq<Event>)
      modifies this`fire
      ensures old(fire) == 1 ==> fire == 0 && events == TimeBlinks(DecodeTime(ToInt32(timeMs)))
      ensures old(fire) != 1 ==> fire == old(fire) && events == []
      ensures old(Valid()) ==> Valid()
    {
      events := [];
      if fire == 1 {
        fire := 0;
        events := TellTime();
      }
    }
  }

  /** The start-up time 22:01:30 is 79,290,000 ms and decodes back to 22:01:30. */
  lemma InitialTime()
    ensures GetMs(22, 1, 30) == 79_290_000
    ensures DecodeTime(79_290_000) == DigitsOf(22, 1, 30)
  {
    DecodeGetMs(22, 1, 30);
  }

  /** What the display sequence tells in a reachable state: reading the blinks
      of the snapshot gives its hour and minute digits, and those are the time
      of day the clock holds, with an hour of 0 to 23. */
  lemma DisplayShowsTime(timeMs: uint32)
    requires timeMs < WRAP_MS
    ensures var d := DecodeTime(ToInt32(timeMs));
            ReadTime(TimeBlinks(d)) == Some((d.hoursTen, d.hoursOne, d.minutesTen, d.minutesOne))
            && d.Hours() <= 23
            && d.Hours() * 3600 + d.Minutes() * 60 + d.Seconds() == timeMs / 1000
  {
    DecodeTimeDigits(ToInt32(timeMs));
    ReadTimeBlinks(DecodeTime(ToInt32(timeMs)));
  }

  /** Wake-flag discipline over a run of the main loop: a timer overflow wakes
      the loop without an edge and the pass shows nothing; a button edge makes
      the next pass blink the current hours and minutes; the pass after that
      shows nothing again, so one edge gives exactly one readout. */
  method TickThenPress(clock: Clock) returns (idle: seq<Event>, shown: seq<Event>, again: seq<Event>)
    requires clock.Valid() && clock.fire == 0
    modifies clock
    ensures clock.Valid() && clock.fire == 0
    ensures clock.State() == TickStep(old(clock.State()))
    ensures idle == [] && again == []
    ensures var d := DecodeTime(ToInt32(clock.timeMs));
            ReadTime(shown) == Some((d.hoursTen, d.hoursOne, d.minutesTen, d.minutesOne))
  {
    clock.Tick();
    idle := clock.LoopPass();
    clock.PinChange();
    shown := clock.LoopPass();
    again := clock.LoopPass();
    DisplayShowsTime(clock.timeMs);
  }
}
