/**
  The clock-state adapter: the signed completion values of the minute ring and
  of the hour ring, derived from the wall-clock time.

  A completion is a percentage of a full turn whose sign selects the direction
  of the mask (non-negative forward, negative backward). The minute ring flips
  direction on every odd hour; the hour ring is negative before noon.
 */
module Clock {

  type Hour = h: int | 0 <= h < 24
  type Minute = m: int | 0 <= m < 60

  /** The two fields of the C library's broken-down time that the rings read. */
  datatype ClockTime = ClockTime(hour: Hour, minute: Minute)

  /** Minutes elapsed since the start of the current half-day. */
  function HalfDayMinutes(t: ClockTime): (m: nat)
    ensures m < 720
    ensures t.hour < 12 ==> m == t.hour * 60 + t.minute
    ensures t.hour >= 12 ==> m == (t.hour - 12) * 60 + t.minute
  {
    (t.hour % 12) * 60 + t.minute
  }

  /** The minute ring's completion: the percentage of the hour elapsed, rounded
      down, shifted by a full turn into the negative range on odd hours. */
  function MinuteCompletion(t: ClockTime): (c: int)
    ensures -100 <= c <= 98
    ensures c < 0 <==> t.hour % 2 == 1
    ensures var swept := if t.hour % 2 == 1 then c + 100 else c;
            swept * 60 <= t.minute * 100 < (swept + 1) * 60
  {
    var completion := (t.minute * 100) / 60;
    if t.hour % 2 == 1 then -100 + completion else completion
  }

  /** The hour ring's completion: the percentage of the half-day elapsed,
      rounded down, shifted by a full turn into the negative range before noon. */
  function HourCompletion(t: ClockTime): (c: int)
    ensures -100 <= c <= 99
    ensures c < 0 <==> t.hour < 12
    ensures var swept := if t.hour < 12 then c + 100 else c;
            swept * 720 <= HalfDayMinutes(t) * 100 < (swept + 1) * 720
  {
    var completion := (((t.hour % 12) * 60 + t.minute) * 100) / 720;
    if t.hour < 12 then -100 + completion else completion
  }

  /** `t1` is not later than `t2` on the same day. */
  predicate NotLater(t1: ClockTime, t2: ClockTime) {
    t1.hour < t2.hour || (t1.hour == t2.hour && t1.minute <= t2.minute)
  }

  /** Within one hour the minute ring's completion never decreases. */
  lemma MinuteCompletionMonotone(t1: ClockTime, t2: ClockTime)
    requires t1.hour == t2.hour && t1.minute <= t2.minute
    ensures MinuteCompletion(t1) <= MinuteCompletion(t2)
  {
  }

  /** Within one half-day the hour ring's completion never decreases. */
  lemma HourCompletionMonotone(t1: ClockTime, t2: ClockTime)
    requires (t1.hour < 12) == (t2.hour < 12)
    requires NotLater(t1, t2)
    ensures HourCompletion(t1) <= HourCompletion(t2)
  {
  }

  /** At midnight the hour ring stands at a full backward turn, while hour 0
      is even, so the minute ring starts forward at zero. */
  lemma CompletionAtMidnight()
    ensures HourCompletion(ClockTime(0, 0)) == -100
    ensures MinuteCompletion(ClockTime(0, 0)) == 0
  {
    var t := ClockTime(0, 0);
    assert HalfDayMinutes(t) == 0;
  }

  /** At noon the hour ring switches to forward at zero. */
  lemma CompletionAtNoon()
    ensures HourCompletion(ClockTime(12, 0)) == 0
    ensures MinuteCompletion(ClockTime(12, 0)) == 0
  {
  }

  /** At 13:30 the hour ring is a rounded-down eighth of the way through the
      afternoon and the odd hour sends the minute ring backward. */
  lemma CompletionAtHalfPastOne()
    ensures HourCompletion(ClockTime(13, 30)) == 12
    ensures MinuteCompletion(ClockTime(13, 30)) == -50
  {
  }

  /** The minute ring's direction alternates with each hour: at every minute the
      ring of hour `h` and that of the next hour sweep in opposite directions,
      including from hour 23 to hour 0. */
  lemma MinuteDirectionAlternates(t1: ClockTime, t2: ClockTime)
    requires t2.hour == (t1.hour + 1) % 24 && t1.minute == t2.minute
    ensures (MinuteCompletion(t1) < 0) != (MinuteCompletion(t2) < 0)
  {
  }
}
