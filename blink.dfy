/** The LED encoding of the time: `blink_for`, `blink_n_times` and
    `blink_number`, with each `delay_ms` represented by an event carrying its
    duration. A reader that counts pulses is the partner of the encoding: it
    recovers the hour and minute digits from the event sequence. */
module Blink {
  import opened Ints
  import opened TimeOfDay

  /** LED on for `ms`, LED off for `ms`, or a wait of `ms` with the LED left off. */
  datatype Event = On(ms: nat) | Off(ms: nat) | Pause(ms: nat)

  datatype Option<T> = None | Some(value: T)

  /** A short pulse, one per unit of a non-zero digit. */
  const SHORT_MS: nat := 255
  /** The single long pulse that stands for the digit 0. */
  const LONG_MS: nat := 500
  /** Wait between the tens and the ones digit. */
  const DIGIT_GAP_MS: nat := 255
  /** Wait after the hours and after the minutes. */
  const GROUP_GAP_MS: nat := 1000

  /** `blink_for`: the LED on for `ms`, then off for the same `ms`. */
  function BlinkFor(ms: nat): seq<Event>
  {
    [On(ms), Off(ms)]
  }

  /** `n` pulses of `ms` each: on and off periods of `ms` alternate, starting
      with an on period, `n` times. This is what `blink_n_times` produces. */
  function Pulses(n: nat, ms: nat): (r: seq<Event>)
    ensures |r| == 2 * n
    ensures forall j :: 0 <= j < |r| ==> r[j] == (if j % 2 == 0 then On(ms) else Off(ms))
  {
    if n == 0 then [] else BlinkFor(ms) + Pulses(n - 1, ms)
  }

  /** One more pulse at the end. */
  lemma PulsesAppend(n: nat, ms: nat)
    ensures Pulses(n + 1, ms) == Pulses(n, ms) + BlinkFor(ms)
  {
    var a, b := Pulses(n + 1, ms), Pulses(n, ms) + BlinkFor(ms);
    assert |a| == |b|;
    forall j | 0 <= j < |a| ensures a[j] == b[j] {
      if j < 2 * n {
        assert b[j] == Pulses(n, ms)[j];
      }
    }
  }

  /** `blink_n_times` with its loop counter able to count up to every `uint8_t`
      value: `n` pulses of 255 ms, in order. */
  method BlinkNTimes(n: uint8) returns (events: seq<Event>)
    ensures events == Pulses(n, SHORT_MS)
  {
    events := [];
    var i: nat := 0;
    while i < n
      invariant i <= n
      invariant events == Pulses(i, SHORT_MS)
    {
      PulsesAppend(i, SHORT_MS);
      events := events + BlinkFor(SHORT_MS);
      i := i + 1;
    }
  }

  /** The `int8_t` loop counter of `blink_n_times` as written, after `k` passes:
      it starts at 0 and each `i++` converts the sum back to `int8_t`. */
  function CounterAfter(k: nat): int
  {
    if k == 0 then 0 else I8(CounterAfter(k - 1) + 1)
  }

  /** For its first 127 passes the counter simply counts the passes. */
  lemma {:induction false} CounterClimbs(k: nat)
    requires k <= 127
    ensures CounterAfter(k) == k
  {
    if k > 0 {
      CounterClimbs(k - 1);
    }
  }

  /** As written, `blink_n_times(n)` never ends for `n` of 128 or more: the
      counter stays in -128..127, so after any number of passes it is still
      below `n` and the guard `i < n` stays true; the 128th pass takes the
      counter from 127 to -128. */
  lemma Int8CounterNeverReaches(n: uint8, k: nat)
    requires n >= 128
    ensures CounterAfter(k) < n
    ensures k <= 127 ==> CounterAfter(k) == k
    ensures CounterAfter(k) == 127 ==> CounterAfter(k + 1) == -128
  {
    if k <= 127 {
      CounterClimbs(k);
    }
  }

  /** How `blink_number` shows one digit: a single 500 ms pulse for 0, and
      otherwise `d` pulses of 255 ms, each on period followed by an off period
      of the same length. */
  function DigitBlinks(d: nat): (r: seq<Event>)
    ensures |r| == 2 * (if d == 0 then 1 else d)
    ensures forall j :: 0 <= j < |r| ==>
      r[j] == (var w := if d == 0 then LONG_MS else SHORT_MS; if j % 2 == 0 then On(w) else Off(w))
  {
    if d == 0 then BlinkFor(LONG_MS) else Pulses(d, SHORT_MS)
  }

  /** `blink_number`: the tens digit, a 255 ms wait, the ones digit. */
  function BlinkNumber(tens: nat, ones: nat): seq<Event>
  {
    DigitBlinks(tens) + [Pause(DIGIT_GAP_MS)] + DigitBlinks(ones)
  }

  /** The blinking part of `tell_time`: hours, a one-second wait, minutes, a
      one-second wait. The seconds are not blinked. */
  function TimeBlinks(t: Digits): seq<Event>
  {
    BlinkNumber(t.hoursTen, t.hoursOne) + [Pause(GROUP_GAP_MS)]
    + BlinkNumber(t.minutesTen, t.minutesOne) + [Pause(GROUP_GAP_MS)]
  }

  /** The seconds digits have no effect on what is blinked. */
  lemma TimeBlinksIgnoresSeconds(t: Digits, secondsTen: nat, secondsOne: nat)
    ensures TimeBlinks(t) == TimeBlinks(t.(secondsTen := secondsTen, secondsOne := secondsOne))
  {
  }

  // The reader: what someone counting the pulses recovers.

  /** The number of `ms` pulses at the head of `s`. */
  function CountPulses(s: seq<Event>, ms: nat): (k: nat)
    ensures 2 * k <= |s|
    decreases |s|
  {
    if |s| >= 2 && s[0] == On(ms) && s[1] == Off(ms) then 1 + CountPulses(s[2..], ms) else 0
  }

  /** A long pulse reads as 0; otherwise the run of short pulses is counted. */
  function ReadDigit(s: seq<Event>): Option<(nat, seq<Event>)>
  {
    if |s| >= 2 && s[0] == On(LONG_MS) && s[1] == Off(LONG_MS) then Some((0, s[2..]))
    else
      var k := CountPulses(s, SHORT_MS);
      if k == 0 then None else Some((k, s[2 * k..]))
  }

  /** A wait of exactly `ms` at the head of `s`. */
  function ReadGap(s: seq<Event>, ms: nat): Option<seq<Event>>
  {
    if |s| >= 1 && s[0] == Pause(ms) then Some(s[1..]) else None
  }

  /** A tens digit, the digit gap, a ones digit. */
  function ReadNumber(s: seq<Event>): Option<(nat, nat, seq<Event>)>
  {
    match ReadDigit(s)
    case None => None
    case Some((tens, afterTens)) =>
      match ReadGap(afterTens, DIGIT_GAP_MS)
      case None => None
      case Some(afterGap) =>
        match ReadDigit(afterGap)
        case None => None
        case Some((ones, rest)) => Some((tens, ones, rest))
  }

  /** A whole readout: hours, a group gap, minutes, a group gap, and nothing
      more. Gives hours tens and ones, then minutes tens and ones. */
  function ReadTime(s: seq<Event>): Option<(nat, nat, nat, nat)>
  {
    match ReadNumber(s)
    case None => None
    case Some((ht, ho, afterHours)) =>
      match ReadGap(afterHours, GROUP_GAP_MS)
      case None => None
      case Some(s1) =>
        match ReadNumber(s1)
        case None => None
        case Some((mt, mo, afterMinutes)) =>
          match ReadGap(afterMinutes, GROUP_GAP_MS)
          case None => None
          case Some(s2) => if s2 == [] then Some((ht, ho, mt, mo)) else None
  }

  /** What may follow a digit: nothing, or a wait. */
  predicate StartsWithPauseOrEmpty(s: seq<Event>)
  {
    s == [] || s[0].Pause?
  }

  /** Counting pulses stops exactly at the end of `n` pulses. */
  lemma {:induction false} CountPulsesOfPulses(n: nat, ms: nat, rest: seq<Event>)
    requires StartsWithPauseOrEmpty(rest)
    ensures CountPulses(Pulses(n, ms) + rest, ms) == n
  {
    if n > 0 {
      var s := Pulses(n, ms) + rest;
      assert s[2..] == Pulses(n - 1, ms) + rest;
      CountPulsesOfPulses(n - 1, ms, rest);
    }
  }

  /** A digit's blinks read back as that digit, leaving what follows. */
  lemma ReadDigitBlinks(d: nat, rest: seq<Event>)
    requires StartsWithPauseOrEmpty(rest)
    ensures ReadDigit(DigitBlinks(d) + rest) == Some((d, rest))
  {
    var s := DigitBlinks(d) + rest;
    if d == 0 {
      assert s[2..] == rest;
    } else {
      CountPulsesOfPulses(d, SHORT_MS, rest);
      assert s[2 * d..] == rest;
    }
  }

  /** A digit pair's blinks read back as that pair, leaving what follows. */
  lemma ReadNumberBlinks(tens: nat, ones: nat, rest: seq<Event>)
    requires StartsWithPauseOrEmpty(rest)
    ensures ReadNumber(BlinkNumber(tens, ones) + rest) == Some((tens, ones, rest))
  {
    var afterGap := DigitBlinks(ones) + rest;
    var afterTens := [Pause(DIGIT_GAP_MS)] + afterGap;
    assert BlinkNumber(tens, ones) + rest == DigitBlinks(tens) + afterTens;
    ReadDigitBlinks(tens, afterTens);
    assert ReadGap(afterTens, DIGIT_GAP_MS) == Some(afterGap);
    ReadDigitBlinks(ones, rest);
  }

  /** A readout made of two digit pairs, each followed by a group gap. */
  lemma ReadTimeOfParts(s: seq<Event>, hours: (nat, nat, seq<Event>), minutes: (nat, nat, seq<Event>),
                        afterGap: seq<Event>)
    requires ReadNumber(s) == Some(hours)
    requires ReadGap(hours.2, GROUP_GAP_MS) == Some(afterGap)
    requires ReadNumber(afterGap) == Some(minutes)
    requires minutes.2 == [Pause(GROUP_GAP_MS)]
    ensures ReadTime(s) == Some((hours.0, hours.1, minutes.0, minutes.1))
  {
    assert |minutes.2[1..]| == 0;
  }

  /** Round trip of the encoding: reading the blinks of a decoded time gives
      back its hour and minute digits, and the readout contains nothing else. */
  lemma ReadTimeBlinks(t: Digits)
    ensures ReadTime(TimeBlinks(t)) == Some((t.hoursTen, t.hoursOne, t.minutesTen, t.minutesOne))
  {
    var tail: seq<Event> := [Pause(GROUP_GAP_MS)];
    var s1 := BlinkNumber(t.minutesTen, t.minutesOne) + tail;
    var afterHours := [Pause(GROUP_GAP_MS)] + s1;
    assert TimeBlinks(t) == BlinkNumber(t.hoursTen, t.hoursOne) + afterHours;
    ReadNumberBlinks(t.hoursTen, t.hoursOne, afterHours);
    assert ReadGap(afterHours, GROUP_GAP_MS) == Some(s1);
    ReadNumberBlinks(t.minutesTen, t.minutesOne, tail);
    ReadTimeOfParts(TimeBlinks(t), (t.hoursTen, t.hoursOne, afterHours),
                    (t.minutesTen, t.minutesOne, tail), s1);
  }
}
