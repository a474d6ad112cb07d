/** Time of day in the clock firmware: the start-up conversion of an
    hour/minute/second triple to milliseconds (`get_ms`) and the decode of a
    millisecond snapshot into the six decimal digits that `tell_time` shows. */
module TimeOfDay {
  import opened Ints

  /** Milliseconds in a full 24-hour day. */
  const MS_PER_DAY: int := 86_400_000

  /** The decoded time: tens and ones digit of hours, minutes and seconds. */
  datatype Digits = Digits(hoursTen: nat, hoursOne: nat,
                           minutesTen: nat, minutesOne: nat,
                           secondsTen: nat, secondsOne: nat)
  {
    function Hours(): nat { hoursTen * 10 + hoursOne }
    function Minutes(): nat { minutesTen * 10 + minutesOne }
    function Seconds(): nat { secondsTen * 10 + secondsOne }
  }

  /** The two decimal digits of each of `h`, `m` and `s`. */
  function DigitsOf(h: nat, m: nat, s: nat): Digits
  {
    Digits(h / 10, h % 10, m / 10, m % 10, s / 10, s % 10)
  }

  /** `get_ms`: every intermediate is an `unsigned long`, so each product and
      sum wraps modulo 2^32; the result is returned as `int32_t`. For a valid
      time of day nothing wraps and the result is the exact millisecond count
      since midnight, a whole number of seconds inside one day. */
  function GetMs(hour: uint32, minute: uint32, second: uint32): (r: int32)
    ensures hour < 24 && minute < 60 && second < 60 ==>
      r == (3600 * hour + 60 * minute + second) * 1000
    ensures hour < 24 && minute < 60 && second < 60 ==>
      0 <= r < MS_PER_DAY && r % 1000 == 0
  {
    var hourSeconds := U32(60 * 60 * hour);
    var minuteSeconds := U32(minute * 60);
    var daySeconds := U32(U32(hourSeconds + minuteSeconds) + second);
    ToInt32(U32(daySeconds * 1000))
  }

  /** Division facts for splitting a count of seconds into hours, minutes and
      seconds. */
  lemma SplitSeconds(x: nat)
    ensures x / 60 / 60 == x / 3600
    ensures x - (x / 3600) * 3600 == x % 3600
    ensures (x % 3600) / 60 < 60
    ensures x == (x / 3600) * 3600 + ((x % 3600) / 60) * 60 + x % 60
  {
    var q, r := x / 3600, x % 3600;
    var m, s := r / 60, r % 60;
    assert x == 3600 * q + 60 * m + s;
    assert x == 60 * (60 * q + m) + s;
    DivModUnique(x, 60, 60 * q + m, s);
    DivModUnique(x / 60, 60, q, m);
  }

  /** Division and remainder are determined by the quotient/remainder equation. */
  lemma DivModUnique(x: int, d: int, q: int, r: int)
    requires 0 < d && 0 <= r < d && x == d * q + r
    ensures x / d == q && x % d == r
  {
    var q', r' := x / d, x % d;
    assert d * q' + r' == d * q + r;
    if q' < q {
      assert d * (q - q') == d * q - d * q';
      MulAtLeast(d, q - q');
    } else if q' > q {
      assert d * (q' - q) == d * q' - d * q;
      MulAtLeast(d, q' - q);
    }
  }

  lemma {:induction false} MulAtLeast(d: nat, k: int)
    requires k >= 1
    ensures d * k >= d
  {
    if k > 1 {
      MulAtLeast(d, k - 1);
      assert d * k == d * (k - 1) + d;
    }
  }

  /** The arithmetic of `tell_time`: the snapshot is converted to `unsigned long`
      for the division, the hour count is kept in a `uint16_t`, the minutes are
      what remains after the whole hours, and every digit is a `uint8_t`; values
      below ten take the `hours < 10` / `minutes < 10` branches. None of the
      branches and narrowings matter: the result is the plain decimal split of
      the whole hours, the minutes past the hour and the seconds past the
      minute. */
  function DecodeTime(snapshotMs: int32): (d: Digits)
    ensures var s := U32(snapshotMs) / 1000;
            d == DigitsOf(s / 3600, (s % 3600) / 60, s % 60)
  {
    var adjustedS := U32(snapshotMs) / 1000;
    var secondsTen := U8((adjustedS % 60) / 10);
    var secondsOne := U8((adjustedS % 60) % 10);
    var hours := U16(adjustedS / 60 / 60);
    var hoursTen := if hours < 10 then 0 else U8(hours / 10);
    var hoursOne := if hours < 10 then U8(hours) else U8(hours % 10);
    var minutes := U16(U16(U32(adjustedS - hours * 60 * 60)) / 60);
    var minutesTen := if minutes < 10 then 0 else U8(minutes / 10);
    var minutesOne := if minutes < 10 then U8(minutes) else U8(minutes % 10);
    NarrowingsKeepValues(adjustedS);
    TwoDigits(hours, hoursTen, hoursOne);
    TwoDigits(minutes, minutesTen, minutesOne);
    Digits(hoursTen, hoursOne, minutesTen, minutesOne, secondsTen, secondsOne)
  }

  /** Whatever the snapshot, the decoded minutes and seconds are proper
      two-digit values and the digits add back up to the whole seconds of the
      snapshot; a snapshot inside one day gives an hour of 0 to 23. */
  lemma DecodeTimeDigits(snapshotMs: int32)
    ensures var d := DecodeTime(snapshotMs);
            && d.hoursOne <= 9 && d.minutesTen <= 5 && d.minutesOne <= 9
            && d.secondsTen <= 5 && d.secondsOne <= 9
            && d.Minutes() <= 59 && d.Seconds() <= 59
            && U32(snapshotMs) / 1000 == d.Hours() * 3600 + d.Minutes() * 60 + d.Seconds()
            && (0 <= snapshotMs < MS_PER_DAY ==> d.hoursTen <= 2 && d.Hours() <= 23)
  {
    var s := U32(snapshotMs) / 1000;
    SplitSeconds(s);
    var h, m, sec := s / 3600, (s % 3600) / 60, s % 60;
    assert DecodeTime(snapshotMs) == DigitsOf(h, m, sec);
    DigitsOfParts(h, m, sec);
    if 0 <= snapshotMs < MS_PER_DAY {
      assert s < 86_400;
    }
  }

  /** The digits of `h`, `m` and `s` put back together. */
  lemma DigitsOfParts(h: nat, m: nat, s: nat)
    ensures var d := DigitsOf(h, m, s);
            d.Hours() == h && d.Minutes() == m && d.Seconds() == s
            && (m < 60 ==> d.minutesTen <= 5) && (s < 60 ==> d.secondsTen <= 5)
            && (h < 24 ==> d.hoursTen <= 2)
  {
  }

  /** For any whole-second count a `uint32_t` millisecond value can hold, the
      `uint16_t` hour count and the minute computation of `tell_time` lose
      nothing. */
  lemma NarrowingsKeepValues(x: nat)
    requires x <= (TWO_TO_32 - 1) / 1000
    ensures U16(x / 60 / 60) == x / 3600 <= 1193
    ensures U16(U16(U32(x - (x / 3600) * 60 * 60)) / 60) == (x % 3600) / 60 < 60
    ensures U8((x % 60) / 10) == (x % 60) / 10 && U8((x % 60) % 10) == x % 60 % 10
  {
    SplitSeconds(x);
  }

  /** The tens/ones split with its `< 10` branch puts the value back together. */
  lemma TwoDigits(v: uint16, tens: nat, ones: nat)
    requires v < 2560
    requires tens == if v < 10 then 0 else U8(v / 10)
    requires ones == if v < 10 then U8(v) else U8(v % 10)
    ensures tens == v / 10 && ones == v % 10 && tens * 10 + ones == v
  {
  }

  /** Round trip: decoding the milliseconds `get_ms` computes for a valid time
      of day gives back the digits of that hour, minute and second. */
  lemma DecodeGetMs(hour: uint32, minute: uint32, second: uint32)
    requires hour < 24 && minute < 60 && second < 60
    ensures DecodeTime(GetMs(hour, minute, second)) == DigitsOf(hour, minute, second)
  {
    var s := 3600 * hour + 60 * minute + second;
    var ms := GetMs(hour, minute, second);
    assert U32(ms) / 1000 == s;
    DivModUnique(s, 3600, hour, 60 * minute + second);
    DivModUnique(60 * minute + second, 60, minute, second);
    assert s % 60 == second by {
      DivModUnique(s, 60, 60 * hour + minute, second);
    }
  }
}
