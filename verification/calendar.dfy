/**
 Time as the analytics see it. An instant is a count of milliseconds since
 1970-01-01T00:00Z; a day is a count of whole days since that date. The model
 fixes the calendar to UTC, so a day is always 86 400 000 ms long.
 */
module Calendar {

  const MsPerDay: int := 86_400_000

  /** Length of the rolling window used for the recommendation statistics. */
  const WindowDays: int := 7

  /** The day that contains instant `t` (rounded towards minus infinity). */
  function DayOf(t: int): (d: int)
    ensures d * MsPerDay <= t < d * MsPerDay + MsPerDay
  {
    t / MsPerDay
  }

  /** Day of the week of day `d`, Sunday = 0 … Saturday = 6; day 0 was a Thursday. */
  function Weekday(d: int): (w: int)
    ensures 0 <= w < 7
    ensures (d - w + 4) % 7 == 0
  {
    (d + 4) % 7
  }

  /** The Sunday on or before day `d`: the day minus its weekday. */
  function WeekStart(d: int): (s: int)
    ensures Weekday(s) == 0
    ensures s <= d < s + 7
  {
    d - Weekday(d)
  }

  /** The week of an instant: the start day of the Sunday-based week containing it. */
  function WeekOf(t: int): int
  {
    WeekStart(DayOf(t))
  }

  /** A Sunday `s` with `s <= d < s + 7` is the start of `d`'s week: the week is unique. */
  lemma WeekStartUnique(s: int, d: int)
    requires Weekday(s) == 0
    requires s <= d < s + 7
    ensures WeekStart(d) == s
  {
    var k := (s + 4) / 7;
    assert s + 4 == 7 * k;
    assert d + 4 == 7 * k + (d - s);
    assert (d + 4) % 7 == d - s;
  }

  /** A later day never falls in an earlier week, so ordering weeks by start date follows the days' order. */
  lemma WeekStartMonotone(d1: int, d2: int)
    requires d1 <= d2
    ensures WeekStart(d1) <= WeekStart(d2)
  {
    var s1, s2 := WeekStart(d1), WeekStart(d2);
    if s2 < s1 {
      assert s2 <= d2 < s2 + 7;
      assert s1 <= d1 <= d2 < s2 + 7;
      WeekStartUnique(s2, s1);
      assert false;
    }
  }
}
