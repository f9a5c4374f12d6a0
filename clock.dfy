/**
  Points in time as the search script uses them: Ruby `Time` values compared with `<` and `>`,
  shifted by a number of seconds, and cut back to the start of their day.
  A time is a whole number of seconds since 1970-01-01 00:00:00; time zones are not modelled.
 */
module Clock {

  /** Seconds since 1970-01-01 00:00:00 (no zone). */
  type Time = int

  const SecondsPerDay: int := 86400

  /** The calendar day a time falls on, counted from 1970-01-01. */
  function DayNumber(t: Time): int {
    t / SecondsPerDay
  }

  /** The seconds elapsed since the start of the day (0 is 00:00:00). */
  function SecondOfDay(t: Time): (s: int)
    ensures 0 <= s < SecondsPerDay
  {
    t % SecondsPerDay
  }

  /** A time is its day and its second of that day, nothing more. */
  lemma DayAndSecondDetermineTime(t: Time, u: Time)
    requires DayNumber(t) == DayNumber(u) && SecondOfDay(t) == SecondOfDay(u)
    ensures t == u
  {
  }

  /** Days from 1970-01-01 to the Gregorian date `y`-`m`-`d` (`m` in 1..12). */
  function DaysFromCivil(y: int, m: int, d: int): int {
    var y' := if m <= 2 then y - 1 else y;
    var era := y' / 400;
    var yearOfEra := y' - era * 400;
    var shiftedMonth := if m > 2 then m - 3 else m + 9;
    var dayOfYear := (153 * shiftedMonth + 2) / 5 + d - 1;
    var dayOfEra := yearOfEra * 365 + yearOfEra / 4 - yearOfEra / 100 + dayOfYear;
    era * 146097 + dayOfEra - 719468
  }

  /** The time `y`-`m`-`d` `hh`:`mm`:`ss`. */
  function FromCivil(y: int, m: int, d: int, hh: int, mm: int, ss: int): Time {
    DaysFromCivil(y, m, d) * SecondsPerDay + hh * 3600 + mm * 60 + ss
  }

  /** A time built from a date and a valid time of day gives both back. */
  lemma FromCivilFields(y: int, m: int, d: int, hh: int, mm: int, ss: int)
    requires 0 <= hh < 24 && 0 <= mm < 60 && 0 <= ss < 60
    ensures DayNumber(FromCivil(y, m, d, hh, mm, ss)) == DaysFromCivil(y, m, d)
    ensures SecondOfDay(FromCivil(y, m, d, hh, mm, ss)) == hh * 3600 + mm * 60 + ss
  {
  }

  /** `Time.parse("31.12.3000 23:59:59")`: the finish used when none is given. */
  const FarFuture: Time := FromCivil(3000, 12, 31, 23, 59, 59)

  /** The sentinel is the last second of 31 December 3000. */
  lemma FarFutureIsLastSecondOf3000()
    ensures DayNumber(FarFuture) == DaysFromCivil(3000, 12, 31) == 376564
    ensures SecondOfDay(FarFuture) == SecondsPerDay - 1
    ensures FarFuture + 1 == FromCivil(3001, 1, 1, 0, 0, 0)
  {
    assert DaysFromCivil(3000, 12, 31) == 376564;
    assert DaysFromCivil(3001, 1, 1) == 376565;
    assert FarFuture == 376564 * SecondsPerDay + 86399;
  }

  /**
    `adjust_to_noon`: `Time.new(time.year, time.month, time.day)`, the same date at 00:00:00.
    Despite its name it moves a time back to midnight, not to noon.
   */
  function AdjustToNoon(t: Time): (r: Time)
    ensures DayNumber(r) == DayNumber(t)
    ensures SecondOfDay(r) == 0
  {
    DayNumber(t) * SecondsPerDay
  }

  /** The contract of AdjustToNoon determines its result: the midnight of the same day. */
  lemma AdjustToNoonUnique(t: Time, r: Time)
    requires DayNumber(r) == DayNumber(t) && SecondOfDay(r) == 0
    ensures r == AdjustToNoon(t)
  {
    DayAndSecondDetermineTime(r, AdjustToNoon(t));
  }

  /** Snapping twice is snapping once. */
  lemma AdjustToNoonIdempotent(t: Time)
    ensures AdjustToNoon(AdjustToNoon(t)) == AdjustToNoon(t)
  {
    AdjustToNoonUnique(AdjustToNoon(t), AdjustToNoon(AdjustToNoon(t)));
  }

  /** Snapping never moves a time forward, and moves it back by less than a day. */
  lemma AdjustToNoonNotLater(t: Time)
    ensures AdjustToNoon(t) <= t < AdjustToNoon(t) + SecondsPerDay
  {
  }

  /** The snapped time is the latest midnight that is not after `t`. */
  lemma AdjustToNoonLatestMidnight(t: Time, m: Time)
    requires SecondOfDay(m) == 0 && m <= t
    ensures m <= AdjustToNoon(t)
  {
  }

  /** Snapping keeps the order of times (it may make two different times equal). */
  lemma AdjustToNoonMonotone(t: Time, u: Time)
    requires t <= u
    ensures AdjustToNoon(t) <= AdjustToNoon(u)
  {
    AdjustToNoonNotLater(t);
    AdjustToNoonLatestMidnight(u, AdjustToNoon(t));
  }

  /** On a calendar time, snapping keeps year, month and day and sets 00:00:00. */
  lemma AdjustToNoonCivil(y: int, m: int, d: int, hh: int, mm: int, ss: int)
    requires 0 <= hh < 24 && 0 <= mm < 60 && 0 <= ss < 60
    ensures AdjustToNoon(FromCivil(y, m, d, hh, mm, ss)) == FromCivil(y, m, d, 0, 0, 0)
  {
    FromCivilFields(y, m, d, hh, mm, ss);
    FromCivilFields(y, m, d, 0, 0, 0);
    AdjustToNoonUnique(FromCivil(y, m, d, hh, mm, ss), FromCivil(y, m, d, 0, 0, 0));
  }
}
