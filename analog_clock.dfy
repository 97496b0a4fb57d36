/** The AnalogClock component's hand rotations, in tenths of a degree so that
    the source's 0.1 and 0.5 degree steps stay whole numbers. */
module AnalogClock {
  import opened Arithmetic

  /** A wall-clock reading as Date's getHours, getMinutes and getSeconds give it. */
  predicate ValidTime(h: int, m: int, s: int) {
    0 <= h < 24 && 0 <= m < 60 && 0 <= s < 60
  }

  /** seconds * 6 degrees. */
  function SecondHand(s: int): int {
    60 * s
  }

  /** minutes * 6 + seconds * 0.1 degrees. */
  function MinuteHand(m: int, s: int): int {
    60 * m + s
  }

  /** (hours % 12) * 30 + minutes * 0.5 degrees. */
  function HourHand(h: int, m: int): int {
    300 * (h % 12) + 5 * m
  }

  /** Every hand stays below a full turn: the second hand at most 354 degrees,
      the minute hand at most 359.9 and the hour hand at most 359.5. */
  lemma HandBounds(h: int, m: int, s: int)
    requires ValidTime(h, m, s)
    ensures 0 <= SecondHand(s) <= 3540
    ensures 0 <= MinuteHand(m, s) <= 3599
    ensures 0 <= HourHand(h, m) <= 3595
  {
  }

  /** An afternoon hour shows the same hands as the morning hour twelve
      hours earlier. */
  lemma TwelveHourPeriod(h: int, m: int)
    requires 0 <= h < 12
    ensures HourHand(h + 12, m) == HourHand(h, m)
  {
    DivUnique(h + 12, 12, 1, h);
  }

  /** The minute hand sits on a whole minute mark, 6 degrees per minute,
      exactly when the seconds are zero. */
  lemma MinuteHandOnMark(m: int, s: int)
    requires 0 <= m < 60 && 0 <= s < 60
    ensures MinuteHand(m, s) % 60 == 0 <==> s == 0
    ensures s == 0 ==> MinuteHand(m, s) == 60 * m
  {
    DivUnique(MinuteHand(m, s), 60, m, s);
  }

  /** The minute and second hands move forward as the time does within an
      hour: a later (minute, second) gives a strictly larger minute hand. */
  lemma MinuteHandMonotone(m1: int, s1: int, m2: int, s2: int)
    requires 0 <= m1 < 60 && 0 <= s1 < 60 && 0 <= m2 < 60 && 0 <= s2 < 60
    ensures MinuteHand(m1, s1) < MinuteHand(m2, s2) <==> m1 < m2 || (m1 == m2 && s1 < s2)
  {
  }

  /** Within a twelve-hour half day, a later (hour, minute) gives a strictly
      larger hour hand. */
  lemma HourHandMonotone(h1: int, m1: int, h2: int, m2: int)
    requires 0 <= h1 < 12 && 0 <= m1 < 60 && 0 <= h2 < 12 && 0 <= m2 < 60
    ensures HourHand(h1, m1) < HourHand(h2, m2) <==> h1 < h2 || (h1 == h2 && m1 < m2)
  {
    DivUnique(h1, 12, 0, h1);
    DivUnique(h2, 12, 0, h2);
  }

  /** The hour hand turns a twelfth as fast as the minute hand: twelve times
      its angle, less whole turns, is the minute hand without the seconds. */
  lemma HourHandTracksMinuteHand(h: int, m: int, s: int)
    requires ValidTime(h, m, s)
    ensures (12 * HourHand(h, m)) % 3600 == MinuteHand(m, s) - s
  {
    DivMod(h, 12);
    DivUnique(12 * HourHand(h, m), 3600, h % 12, 60 * m);
  }
}
