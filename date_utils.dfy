/** The header's date filter: each named period becomes a pair of instants,
    the start of its first day and the end of its last day (dateUtils.ts). */
module DateUtils {
  import opened Types
  import opened Gregorian
  import opened JsDates

  /** `{ start, end }` as time values in milliseconds. */
  datatype Range = Range(start: int, end: int)

  /** The first and last day of each period, counted from the current date
      `now`. Weeks start on Monday; months and years come from `new Date(y, m, d)`
      with its month and day roll-over. */
  function PeriodDays(filter: DateFilter, now: Civil): (r: Option<(int, int)>)
    ensures r.None? <==> filter == All
  {
    var today := DayOf(now);
    var wd := Weekday(today);
    var y := FullYear(now.year);
    match filter
    case Today => Some((today, today))
    case Yesterday => Some((today - 1, today - 1))
    case ThisWeek =>
      var first := today - wd + (if wd == 0 then -6 else 1);
      Some((first, first + 6))
    case LastWeek =>
      var first := today - wd - 6;
      Some((first, first + 6))
    case ThisMonth => Some((MakeDay(y, now.month, 1), MakeDay(y, now.month + 1, 0)))
    case LastMonth => Some((MakeDay(y, now.month - 1, 1), MakeDay(y, now.month, 0)))
    case LastThreeMonths => Some((MakeDay(y, now.month - 3, 1), MakeDay(y, now.month, 0)))
    case ThisYear => Some((MakeDay(y, 0, 1), MakeDay(y, 11, 31)))
    case LastYear =>
      var ly := FullYear(now.year - 1);
      Some((MakeDay(ly, 0, 1), MakeDay(ly, 11, 31)))
    case All => None
  }

  /** The period as instants: 00:00:00.000 of its first day to 23:59:59.999 of its last. */
  function DateRange(filter: DateFilter, now: Civil): (r: Option<Range>)
    ensures r.None? <==> filter == All
  {
    match PeriodDays(filter, now)
    case None => None
    case Some(days) => Some(Range(TimeValue(days.0, 0), TimeValue(days.1, EndOfDayMs)))
  }

  /** `setStartOfDay`. */
  method SetStartOfDay(date: JsDate)
    requires date.Valid()
    modifies date
    ensures date.Valid()
    ensures date.Day() == old(date.Day()) && date.Time() == TimeValue(date.Day(), 0)
  {
    date.SetHours(0, 0, 0, 0);
  }

  /** `setEndOfDay`. */
  method SetEndOfDay(date: JsDate)
    requires date.Valid()
    modifies date
    ensures date.Valid()
    ensures date.Day() == old(date.Day()) && date.Time() == TimeValue(date.Day(), EndOfDayMs)
  {
    date.SetHours(23, 59, 59, 999);
  }

  /** `setStartOfDay(start); setEndOfDay(end); return { start, end };` */
  method Bounds(start: JsDate, end: JsDate) returns (r: Option<Range>)
    requires start != end && start.Valid() && end.Valid()
    modifies start, end
    ensures r == Some(Range(TimeValue(old(start.Day()), 0), TimeValue(old(end.Day()), EndOfDayMs)))
  {
    SetStartOfDay(start);
    SetEndOfDay(end);
    r := Some(Range(start.Time(), end.Time()));
  }

  /** The cases of `getDateRange` that move the copies of `now` with `setDate`. */
  method ShiftedRange(filter: DateFilter, now: JsDate, start: JsDate, end: JsDate) returns (r: Option<Range>)
    requires filter.Today? || filter.Yesterday? || filter.ThisWeek? || filter.LastWeek?
    requires now.Valid() && start.Valid() && end.Valid()
    requires start != end && start != now && end != now
    requires start.year == now.year && start.month == now.month && start.date == now.date
    requires end.year == now.year && end.month == now.month && end.date == now.date
    modifies start, end
    ensures r == DateRange(filter, Civil(now.year, now.month, now.date))
  {
    if filter.Today? {
      r := Bounds(start, end);
    } else if filter.Yesterday? {
      r := MoveWithinMonth(now, start, end, now.date - 1, now.date - 1);
    } else if filter.ThisWeek? {
      var firstDayOfWeek := now.date - now.GetDay() + (if now.GetDay() == 0 then -6 else 1);
      r := MoveWithinMonth(now, start, end, firstDayOfWeek, firstDayOfWeek + 6);
    } else {
      var firstDayOfLastWeek := now.date - now.GetDay() - 6;
      r := MoveWithinMonth(now, start, end, firstDayOfLastWeek, firstDayOfLastWeek + 6);
    }
  }

  /** `start.setDate(first); end.setDate(last);` on two copies of `now`, then
      the start of the first day and the end of the last: `first` and `last`
      count from the 1st of `now`'s month and may run outside it. */
  method MoveWithinMonth(now: JsDate, start: JsDate, end: JsDate, first: int, last: int) returns (r: Option<Range>)
    requires now.Valid() && start.Valid() && end.Valid()
    requires start != end && start != now && end != now
    requires start.year == now.year && start.month == now.month && start.date == now.date
    requires end.year == now.year && end.month == now.month && end.date == now.date
    modifies start, end
    ensures r == Some(Range(TimeValue(now.Day() - now.date + first, 0),
                            TimeValue(now.Day() - now.date + last, EndOfDayMs)))
  {
    DayInMonth(Civil(now.year, now.month, now.date), first);
    DayInMonth(Civil(now.year, now.month, now.date), last);
    start.SetDate(first);
    end.SetDate(last);
    r := Bounds(start, end);
  }

  /** `start = new Date(y1, m1, d1); end = new Date(y2, m2, d2);` then both
      are moved to the start and the end of their day. */
  method NewRange(y1: int, m1: int, d1: int, y2: int, m2: int, d2: int) returns (r: Option<Range>)
    ensures r == Some(Range(TimeValue(MakeDay(FullYear(y1), m1, d1), 0),
                            TimeValue(MakeDay(FullYear(y2), m2, d2), EndOfDayMs)))
  {
    var start := new JsDate.Of(y1, m1, d1);
    var end := new JsDate.Of(y2, m2, d2);
    r := Bounds(start, end);
  }

  /** The cases of `getDateRange` that build new dates from the current year and month. */
  method CalendarRange(filter: DateFilter, now: JsDate) returns (r: Option<Range>)
    requires filter.ThisMonth? || filter.LastMonth? || filter.LastThreeMonths?
             || filter.ThisYear? || filter.LastYear?
    requires now.Valid()
    ensures r == DateRange(filter, Civil(now.year, now.month, now.date))
  {
    if filter.ThisMonth? {
      r := NewRange(now.year, now.month, 1, now.year, now.month + 1, 0);
    } else if filter.LastMonth? {
      r := NewRange(now.year, now.month - 1, 1, now.year, now.month, 0);
    } else if filter.LastThreeMonths? {
      r := NewRange(now.year, now.month - 3, 1, now.year, now.month, 0);
    } else if filter.ThisYear? {
      r := NewRange(now.year, 0, 1, now.year, 11, 31);
    } else {
      r := NewRange(now.year - 1, 0, 1, now.year - 1, 11, 31);
    }
  }

  /** `getDateRange(filter)`, with the clock reading `new Date()` passed in as
      the current date and time of day. */
  method GetDateRange(filter: DateFilter, nowDate: Civil, nowMs: int) returns (r: Option<Range>)
    requires ValidCivil(nowDate) && 0 <= nowMs < MsPerDay
    ensures r == DateRange(filter, nowDate)
  {
    var now := new JsDate.At(nowDate, nowMs);
    var start := new JsDate.Copy(now);
    var end := new JsDate.Copy(now);
    if filter.All? {
      r := None;
    } else if filter.Today? || filter.Yesterday? || filter.ThisWeek? || filter.LastWeek? {
      r := ShiftedRange(filter, now, start, end);
    } else {
      r := CalendarRange(filter, now);
    }
  }

  // ---------------------------------------------------------------------------
  // What each period covers

  /** `date >= start && date <= end`, comparing time values. */
  predicate InRange(r: Range, time: int)
  {
    r.start <= time <= r.end
  }

  /** A date lies in a range of whole days exactly when its day lies between
      the first and the last day. */
  lemma MidnightInRange(first: int, last: int, day: int)
    ensures InRange(Range(TimeValue(first, 0), TimeValue(last, EndOfDayMs)), TimeValue(day, 0))
            <==> first <= day <= last
  {
  }

  /** Whether the midnight starting date `c` falls in the filter's range. */
  predicate Covers(filter: DateFilter, now: Civil, c: Civil)
  {
    var r := DateRange(filter, now);
    r.Some? && InRange(r.value, TimeValue(DayOf(c), 0))
  }

  lemma CoversDays(filter: DateFilter, now: Civil, c: Civil)
    requires filter != All
    ensures Covers(filter, now, c)
            <==> PeriodDays(filter, now).value.0 <= DayOf(c) <= PeriodDays(filter, now).value.1
  {
    var days := PeriodDays(filter, now).value;
    MidnightInRange(days.0, days.1, DayOf(c));
  }

  /** A valid date is on or after `new Date(y, lo, 1)` exactly when its month
      is month `lo` of year `y` or later; `lo` may run outside 0..11, as `new Date` allows. */
  lemma SpanStart(c: Civil, y: int, lo: int)
    requires ValidCivil(c)
    ensures MakeDay(y, lo, 1) <= DayOf(c) <==> y * 12 + lo <= MonthIndex(c)
  {
    var y1, m1 := y + lo / 12, lo % 12;
    MonthCarry(y, lo, 1);
    assert MakeDay(y, lo, 1) == MakeDay(y1, m1, 1);
    FromMonthStart(c, y1, m1);
  }

  /** `new Date(y, hi + 1, 0)` is the last day of month `hi`, carried into range. */
  lemma DayBeforeMonth(y: int, hi: int)
    ensures 0 <= hi % 12 < 12 && (y + hi / 12) * 12 + hi % 12 == y * 12 + hi
    ensures var y2, m2 := y + hi / 12, hi % 12;
      MakeDay(y, hi + 1, 0) == MakeDay(y2, m2, DaysInMonth(y2, m2))
  {
    var y2, m2 := y + hi / 12, hi % 12;
    var last := DaysInMonth(y2, m2);
    calc {
      MakeDay(y, hi + 1, 0);
      { DayZero(y, hi); }
      MakeDay(y, hi, last);
      { MonthCarry(y, hi, last); }
      MakeDay(y2, m2, last);
    }
  }

  /** A valid date is on or before `new Date(y, hi + 1, 0)` exactly when its
      month is month `hi` of year `y` or earlier. */
  lemma SpanEnd(c: Civil, y: int, hi: int)
    requires ValidCivil(c)
    ensures DayOf(c) <= MakeDay(y, hi + 1, 0) <==> MonthIndex(c) <= y * 12 + hi
  {
    var y2, m2 := y + hi / 12, hi % 12;
    DayBeforeMonth(y, hi);
    ToMonthEnd(c, y2, m2);
  }

  /** Months `lo` to `hi` of year `y` span the days from `new Date(y, lo, 1)` to
      `new Date(y, hi + 1, 0)`: a valid date lies there exactly when its month does. */
  lemma MonthSpan(c: Civil, y: int, lo: int, hi: int)
    requires ValidCivil(c)
    ensures MakeDay(y, lo, 1) <= DayOf(c) <= MakeDay(y, hi + 1, 0)
            <==> y * 12 + lo <= MonthIndex(c) <= y * 12 + hi
  {
    SpanStart(c, y, lo);
    SpanEnd(c, y, hi);
  }

  /** A period running from the 1st of month `lo` to the last day of month
      `hi` of year `y` covers exactly the dates of those months. */
  lemma MonthsCover(filter: DateFilter, now: Civil, c: Civil, y: int, lo: int, hi: int)
    requires ValidCivil(c)
    requires PeriodDays(filter, now) == Some((MakeDay(y, lo, 1), MakeDay(y, hi + 1, 0)))
    ensures Covers(filter, now, c) <==> y * 12 + lo <= MonthIndex(c) <= y * 12 + hi
  {
    CoversDays(filter, now, c);
    MonthSpan(c, y, lo, hi);
  }

  /** 'today' covers exactly the current date. */
  lemma TodayCovers(now: Civil, c: Civil)
    requires ValidCivil(now) && ValidCivil(c)
    ensures Covers(Today, now, c) <==> c == now
  {
    CoversDays(Today, now, c);
    DayOrder(c, now);
  }

  /** 'yesterday' covers exactly the day before, which on the first of a month
      is the last day of the previous month (of the previous year in January). */
  lemma YesterdayCovers(now: Civil, c: Civil)
    requires ValidCivil(now) && ValidCivil(c)
    ensures var p := PrevMonth(now.year, now.month);
      var before := if now.day > 1 then Civil(now.year, now.month, now.day - 1)
                    else Civil(p.0, p.1, DaysInMonth(p.0, p.1));
      Covers(Yesterday, now, c) <==> c == before
  {
    CoversDays(Yesterday, now, c);
    var p := PrevMonth(now.year, now.month);
    var before := if now.day > 1 then Civil(now.year, now.month, now.day - 1)
                  else Civil(p.0, p.1, DaysInMonth(p.0, p.1));
    StepBack(now.year, now.month, now.day - 1);
    assert ValidCivil(before);
    assert DayOf(before) == DayOf(now) - 1;
    DayOrder(c, before);
  }

  /** 'this-wk' runs from Monday to Sunday and contains today: on a Sunday it
      reaches back six days. */
  lemma ThisWeekMonday(now: Civil)
    ensures var d := PeriodDays(ThisWeek, now).value;
      Weekday(d.0) == 1 && d.1 == d.0 + 6 && d.0 <= DayOf(now) <= d.1
  {
    var today := DayOf(now);
    var wd := Weekday(today);
    if wd == 0 {
      assert Weekday(today - 6) == 1;
    } else {
      assert Weekday(today - wd + 1) == 1;
    }
  }

  /** 'last-wk' as written: it starts on the Monday `weekday + 6` days back and
      lasts seven days. That is the week before this one except on a Sunday,
      where it is this week itself. */
  lemma LastWeekAsWritten(now: Civil)
    ensures var d := PeriodDays(LastWeek, now).value;
      var w := PeriodDays(ThisWeek, now).value;
      Weekday(d.0) == 1 && d.1 == d.0 + 6
      && (Weekday(DayOf(now)) == 0 ==> d == w)
      && (Weekday(DayOf(now)) != 0 ==> d.0 == w.0 - 7 && d.1 < DayOf(now))
  {
    var today := DayOf(now);
    var wd := Weekday(today);
    assert Weekday(today - wd - 6) == 1;
  }

  /** 'this-mo' covers exactly the dates of the current month. */
  lemma ThisMonthCovers(now: Civil, c: Civil)
    requires ValidCivil(now) && ValidCivil(c)
    ensures Covers(ThisMonth, now, c) <==> c.year == FullYear(now.year) && c.month == now.month
  {
    var y := FullYear(now.year);
    assert PeriodDays(ThisMonth, now) == Some((MakeDay(y, now.month, 1), MakeDay(y, now.month + 1, 0)));
    MonthsCover(ThisMonth, now, c, y, now.month, now.month);
    SameMonthIndex(c, y, now.month);
  }

  /** 'last-mo' covers exactly the dates of the month before the current one. */
  lemma LastMonthCovers(now: Civil, c: Civil)
    requires ValidCivil(now) && ValidCivil(c)
    ensures var p := PrevMonth(FullYear(now.year), now.month);
      Covers(LastMonth, now, c) <==> c.year == p.0 && c.month == p.1
  {
    var y := FullYear(now.year);
    var p := PrevMonth(y, now.month);
    assert now.month - 1 + 1 == now.month;
    assert PeriodDays(LastMonth, now) == Some((MakeDay(y, now.month - 1, 1), MakeDay(y, now.month - 1 + 1, 0)));
    MonthsCover(LastMonth, now, c, y, now.month - 1, now.month - 1);
    assert p.0 * 12 + p.1 == y * 12 + now.month - 1;
    SameMonthIndex(c, p.0, p.1);
  }

  /** In January, 'last-mo' is December of the previous year. */
  lemma LastMonthInJanuary(now: Civil, c: Civil)
    requires ValidCivil(now) && ValidCivil(c) && now.month == 0
    ensures Covers(LastMonth, now, c) <==> c.year == FullYear(now.year) - 1 && c.month == 11
  {
    LastMonthCovers(now, c);
  }

  /** 'last-3-mo' covers the three months before the current one; the current
      month itself is left out. */
  lemma LastThreeMonthsCovers(now: Civil, c: Civil)
    requires ValidCivil(now) && ValidCivil(c)
    ensures var here := FullYear(now.year) * 12 + now.month;
      Covers(LastThreeMonths, now, c) <==> here - 3 <= MonthIndex(c) <= here - 1
    ensures c.year == FullYear(now.year) && c.month == now.month ==> !Covers(LastThreeMonths, now, c)
  {
    var y := FullYear(now.year);
    assert now.month - 1 + 1 == now.month;
    assert PeriodDays(LastThreeMonths, now) == Some((MakeDay(y, now.month - 3, 1), MakeDay(y, now.month - 1 + 1, 0)));
    MonthsCover(LastThreeMonths, now, c, y, now.month - 3, now.month - 1);
  }

  /** 'this-yr' covers exactly the dates of the current year. */
  lemma ThisYearCovers(now: Civil, c: Civil)
    requires ValidCivil(now) && ValidCivil(c)
    ensures Covers(ThisYear, now, c) <==> c.year == FullYear(now.year)
  {
    var y := FullYear(now.year);
    YearEnd(y);
    assert PeriodDays(ThisYear, now) == Some((MakeDay(y, 0, 1), MakeDay(y, 11 + 1, 0)));
    MonthsCover(ThisYear, now, c, y, 0, 11);
    YearMonthIndices(c, y);
  }

  /** 'last-yr' covers exactly the dates of the previous year. */
  lemma LastYearCovers(now: Civil, c: Civil)
    requires ValidCivil(now) && ValidCivil(c)
    ensures Covers(LastYear, now, c) <==> c.year == FullYear(now.year - 1)
  {
    var y := FullYear(now.year - 1);
    YearEnd(y);
    assert PeriodDays(LastYear, now) == Some((MakeDay(y, 0, 1), MakeDay(y, 11 + 1, 0)));
    MonthsCover(LastYear, now, c, y, 0, 11);
    YearMonthIndices(c, y);
  }

  /** `new Date(y, 11, 31)` is `new Date(y, 12, 0)`. */
  lemma YearEnd(y: int)
    ensures MakeDay(y, 11, 31) == MakeDay(y, 11 + 1, 0)
  {
    MonthEnd(y, 11);
  }

  /** Every range starts no later than it ends: some date lies in it. */
  lemma RangeOrdered(filter: DateFilter, now: Civil)
    requires ValidCivil(now) && filter != All
    ensures PeriodDays(filter, now).value.0 <= PeriodDays(filter, now).value.1
    ensures DateRange(filter, now).value.start < DateRange(filter, now).value.end
  {
    var y, m := FullYear(now.year), now.month;
    var p := PrevMonth(y, m);
    var sample :=
      if filter.Today? || filter.Yesterday? || filter.ThisWeek? || filter.LastWeek? then now
      else if filter.ThisMonth? then Civil(y, m, 1)
      else if filter.LastMonth? || filter.LastThreeMonths? then Civil(p.0, p.1, 1)
      else if filter.ThisYear? then Civil(y, 0, 1)
      else Civil(FullYear(now.year - 1), 0, 1);
    if filter.ThisWeek? {
      ThisWeekMonday(now);
    } else if filter.LastWeek? {
      LastWeekAsWritten(now);
    } else if filter.ThisMonth? {
      ThisMonthCovers(now, sample);
    } else if filter.LastMonth? {
      LastMonthCovers(now, sample);
    } else if filter.LastThreeMonths? {
      LastThreeMonthsCovers(now, sample);
    } else if filter.ThisYear? {
      ThisYearCovers(now, sample);
    } else if filter.LastYear? {
      LastYearCovers(now, sample);
    }
    if !(filter.Today? || filter.Yesterday? || filter.ThisWeek? || filter.LastWeek?) {
      CoversDays(filter, now, sample);
    }
  }
}
