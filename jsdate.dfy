/** JavaScript `Date` objects as the journal uses them: a mutable calendar date
    plus a time of day, changed in place by `setDate` and `setHours`. Local time
    is taken to be UTC. */
module JsDates {
  import opened Gregorian

  /** The calendar date JavaScript lands on for year `y`, month `m` and day `d`
      when the month or the day lies outside its range: the overflow rolls into
      the neighbouring months and years, one month at a time. */
  method Normalise(y: int, m: int, d: int) returns (c: Civil)
    ensures ValidCivil(c)
    ensures DayOf(c) == MakeDay(y, m, d)
  {
    var ym, mn, dd := y + m / 12, m % 12, d;
    assert mn / 12 == 0 && mn % 12 == mn;
    while dd < 1
      invariant 0 <= mn < 12
      invariant MakeDay(ym, mn, dd) == MakeDay(y, m, d)
      decreases 1 - dd
    {
      StepBack(ym, mn, dd);
      var p := PrevMonth(ym, mn);
      ym, mn, dd := p.0, p.1, dd + DaysInMonth(p.0, p.1);
    }
    while dd > DaysInMonth(ym, mn)
      invariant 0 <= mn < 12 && dd >= 1
      invariant MakeDay(ym, mn, dd) == MakeDay(y, m, d)
      decreases dd
    {
      StepForward(ym, mn, dd);
      var n := NextMonthOf(ym, mn);
      ym, mn, dd := n.0, n.1, dd - DaysInMonth(ym, mn);
    }
    c := Civil(ym, mn, dd);
  }

  /** A `Date` object: its local calendar date and the milliseconds since midnight. */
  class JsDate {
    var year: int
    var month: int
    var date: int
    var msOfDay: int

    predicate Valid()
      reads this
    {
      ValidCivil(Civil(year, month, date)) && 0 <= msOfDay < MsPerDay
    }

    function Day(): int
      reads this
    {
      DayOf(Civil(year, month, date))
    }

    /** `getTime()`: the time value, in milliseconds since the epoch. */
    function Time(): int
      reads this
    {
      TimeValue(Day(), msOfDay)
    }

    /** `getDay()`. */
    function GetDay(): (w: int)
      reads this
      ensures 0 <= w < 7
    {
      Weekday(Day())
    }

    /** `new Date()` at the given instant. */
    constructor At(now: Civil, ms: int)
      requires ValidCivil(now) && 0 <= ms < MsPerDay
      ensures Valid()
      ensures year == now.year && month == now.month && date == now.day && msOfDay == ms
    {
      year, month, date, msOfDay := now.year, now.month, now.day, ms;
    }

    /** `new Date(other)`: a second object at the same instant. */
    constructor Copy(other: JsDate)
      requires other.Valid()
      ensures Valid()
      ensures year == other.year && month == other.month && date == other.date
      ensures msOfDay == other.msOfDay
    {
      year, month, date, msOfDay := other.year, other.month, other.date, other.msOfDay;
    }

    /** `new Date(y, m, d)`: midnight of that day, reading years 0..99 as 19xx. */
    constructor Of(y: int, m: int, d: int)
      ensures Valid()
      ensures Day() == MakeDay(FullYear(y), m, d) && msOfDay == 0
    {
      var c := Normalise(FullYear(y), m, d);
      year, month, date, msOfDay := c.year, c.month, c.day, 0;
    }

    /** `setDate(d)`: day `d` of the current month, rolling over when `d` is
        outside the month; the time of day is kept. */
    method SetDate(d: int)
      requires Valid()
      modifies this
      ensures Valid()
      ensures Day() == MakeDay(old(year), old(month), d)
      ensures msOfDay == old(msOfDay)
    {
      var c := Normalise(year, month, d);
      year, month, date := c.year, c.month, c.day;
    }

    /** `setHours(h, min, s, ms)` with every argument in its range; the date is kept. */
    method SetHours(h: int, min: int, s: int, ms: int)
      requires 0 <= h < 24 && 0 <= min < 60 && 0 <= s < 60 && 0 <= ms < 1000
      requires Valid()
      modifies this
      ensures Valid()
      ensures year == old(year) && month == old(month) && date == old(date)
      ensures msOfDay == ((h * 60 + min) * 60 + s) * 1000 + ms
    {
      msOfDay := ((h * 60 + min) * 60 + s) * 1000 + ms;
    }
  }
}
