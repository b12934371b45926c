/** The proleptic Gregorian calendar as JavaScript's `Date` computes it
    (ECMAScript's DayFromYear, MakeDay and WeekDay). Day numbers count days
    from 1970-01-01; months are 0-based as `getMonth()` returns them; a time
    value is milliseconds, `day * MsPerDay + msOfDay`. */
module Gregorian {

  const MsPerDay: int := 86400000
  /** 23:59:59.999 as milliseconds since midnight. */
  const EndOfDayMs: int := 86399999

  predicate IsLeap(y: int)
  {
    y % 4 == 0 && (y % 100 != 0 || y % 400 == 0)
  }

  function DaysInYear(y: int): int
  {
    if IsLeap(y) then 366 else 365
  }

  function DaysInMonth(y: int, m: int): (n: int)
    requires 0 <= m < 12
    ensures 28 <= n <= 31
  {
    if m == 1 then (if IsLeap(y) then 29 else 28)
    else if m == 3 || m == 5 || m == 8 || m == 10 then 30
    else 31
  }

  /** Days of the year before month `m`. */
  function MonthStart(y: int, m: int): int
    requires 0 <= m < 12
    decreases m
  {
    if m == 0 then 0 else MonthStart(y, m - 1) + DaysInMonth(y, m - 1)
  }

  /** Day number of January 1st of year `y` (ECMAScript DayFromYear). */
  function YearStart(y: int): int
  {
    365 * (y - 1970) + (y - 1969) / 4 - (y - 1901) / 100 + (y - 1601) / 400
  }

  /** Day number of `new Date(y, m, d)`: months outside 0..11 and days outside
      the month roll over into neighbouring months and years (ECMAScript MakeDay). */
  function MakeDay(y: int, m: int, d: int): int
  {
    var ym := y + m / 12;
    var mn := m % 12;
    YearStart(ym) + MonthStart(ym, mn) + d - 1
  }

  /** `getDay()`: 0 is Sunday, 1 Monday, ..., 6 Saturday. */
  function Weekday(day: int): (w: int)
    ensures 0 <= w < 7
  {
    (day + 4) % 7
  }

  /** The `Date` constructor and `Date.UTC` read a year 0..99 as 1900..1999. */
  function FullYear(y: int): int
  {
    if 0 <= y <= 99 then 1900 + y else y
  }

  function TimeValue(day: int, msOfDay: int): int
  {
    day * MsPerDay + msOfDay
  }

  /** A calendar date; `month` is 0-based, `day` 1-based. */
  datatype Civil = Civil(year: int, month: int, day: int)

  predicate ValidCivil(c: Civil)
  {
    0 <= c.month < 12 && 1 <= c.day <= DaysInMonth(c.year, c.month)
  }

  function DayOf(c: Civil): int
  {
    MakeDay(c.year, c.month, c.day)
  }

  /** Strict calendar order on dates. */
  predicate CivilLess(a: Civil, b: Civil)
  {
    a.year < b.year
    || (a.year == b.year && a.month < b.month)
    || (a.year == b.year && a.month == b.month && a.day < b.day)
  }

  // ---------------------------------------------------------------------------
  // Calendar lemmas

  lemma LeapStep4(y: int)
    ensures (y - 1968) / 4 - (y - 1969) / 4 == if y % 4 == 0 then 1 else 0
  {
    var q, r := y / 4, y % 4;
    assert (y - 1968) / 4 == q - 492;
    if r == 0 {
      assert (y - 1969) / 4 == q - 493;
    } else {
      assert (y - 1969) / 4 == q - 492;
    }
  }

  lemma LeapStep100(y: int)
    ensures (y - 1900) / 100 - (y - 1901) / 100 == if y % 100 == 0 then 1 else 0
  {
    var q, r := y / 100, y % 100;
    assert (y - 1900) / 100 == q - 19;
    if r == 0 {
      assert (y - 1901) / 100 == q - 20;
    } else {
      assert (y - 1901) / 100 == q - 19;
    }
  }

  lemma LeapStep400(y: int)
    ensures (y - 1600) / 400 - (y - 1601) / 400 == if y % 400 == 0 then 1 else 0
  {
    var q, r := y / 400, y % 400;
    assert (y - 1600) / 400 == q - 4;
    if r == 0 {
      assert (y - 1601) / 400 == q - 5;
    } else {
      assert (y - 1601) / 400 == q - 4;
    }
  }

  /** A year contributes its own length to the day count. */
  lemma YearStartNext(y: int)
    ensures YearStart(y + 1) == YearStart(y) + DaysInYear(y)
  {
    LeapStep4(y);
    LeapStep100(y);
    LeapStep400(y);
    var a := (y - 1968) / 4 - (y - 1969) / 4;
    var b := (y - 1900) / 100 - (y - 1901) / 100;
    var c := (y - 1600) / 400 - (y - 1601) / 400;
    assert YearStart(y + 1) == YearStart(y) + 365 + a - b + c;
    LeapDivides(y);
  }

  /** A multiple of 400 is a multiple of 100, and a multiple of 100 one of 4. */
  lemma LeapDivides(y: int)
    ensures y % 400 == 0 ==> y % 100 == 0
    ensures y % 100 == 0 ==> y % 4 == 0
  {
    var q, r := y / 400, y % 400;
    assert y == 400 * q + r;
    var q', r' := y / 100, y % 100;
    assert y == 100 * q' + r';
  }

  /** 1970-01-01 is day 0 and a Thursday. */
  lemma EpochIsThursday()
    ensures MakeDay(1970, 0, 1) == 0 && Weekday(MakeDay(1970, 0, 1)) == 4
  {
    assert 1 / 4 == 0 && 69 / 100 == 0 && 369 / 400 == 0;
    assert YearStart(1970) == 0;
    assert MonthStart(1970, 0) == 0;
  }

  lemma MonthStep(y: int, m: int)
    requires 0 <= m < 12
    ensures m < 11 ==> MonthStart(y, m + 1) == MonthStart(y, m) + DaysInMonth(y, m)
    ensures m == 11 ==> MonthStart(y, m) + DaysInMonth(y, m) == DaysInYear(y)
  {
    if m == 11 {
      YearLength(y);
    }
  }

  /** The twelve months add up to the year. */
  lemma YearLength(y: int)
    ensures MonthStart(y, 11) + DaysInMonth(y, 11) == DaysInYear(y)
  {
    assert MonthStart(y, 2) == 31 + DaysInMonth(y, 1);
    assert MonthStart(y, 5) == MonthStart(y, 2) + 31 + 30 + 31;
    assert MonthStart(y, 8) == MonthStart(y, 5) + 30 + 31 + 31;
    assert MonthStart(y, 11) == MonthStart(y, 8) + 30 + 31 + 30;
  }

  /** The day after the last day of month `m` is the first day of month `m + 1`,
      across year ends too. */
  lemma NextMonth(y: int, m: int)
    ensures 0 <= m % 12 < 12
    ensures MakeDay(y, m + 1, 1) == MakeDay(y, m, DaysInMonth(y + m / 12, m % 12) + 1)
  {
    MonthNumberStep(m);
    if m % 12 < 11 {
      NextMonthInYear(y, m);
    } else {
      NextMonthNewYear(y, m);
    }
  }

  lemma NextMonthInYear(y: int, m: int)
    requires m % 12 < 11 && (m + 1) / 12 == m / 12 && (m + 1) % 12 == m % 12 + 1
    ensures MakeDay(y, m + 1, 1) == MakeDay(y, m, DaysInMonth(y + m / 12, m % 12) + 1)
  {
    var ym, mn := y + m / 12, m % 12;
    var last := DaysInMonth(ym, mn);
    var start := YearStart(ym);
    assert MakeDay(y, m, last + 1) == start + MonthStart(ym, mn) + last by {
      MakeDayParts(y, m, last + 1, ym, mn);
    }
    assert MakeDay(y, m + 1, 1) == start + MonthStart(ym, mn + 1) by {
      MakeDayParts(y, m + 1, 1, ym, mn + 1);
    }
    MonthStep(ym, mn);
  }

  lemma NextMonthNewYear(y: int, m: int)
    requires m % 12 == 11 && (m + 1) / 12 == m / 12 + 1 && (m + 1) % 12 == 0
    ensures MakeDay(y, m + 1, 1) == MakeDay(y, m, DaysInMonth(y + m / 12, m % 12) + 1)
  {
    var ym := y + m / 12;
    var last := DaysInMonth(ym, 11);
    assert DaysInMonth(y + m / 12, m % 12) == last;
    assert MakeDay(y, m, last + 1) == YearStart(ym) + DaysInYear(ym) by {
      DecemberEnd(y, m);
    }
    assert MakeDay(y, m + 1, 1) == YearStart(ym + 1) by {
      MakeDayParts(y, m + 1, 1, ym + 1, 0);
    }
    assert YearStart(ym + 1) == YearStart(ym) + DaysInYear(ym) by {
      YearStartNext(ym);
    }
  }

  /** The day after December 31st, counted within its year. */
  lemma DecemberEnd(y: int, m: int)
    requires m % 12 == 11
    ensures MakeDay(y, m, DaysInMonth(y + m / 12, 11) + 1) == YearStart(y + m / 12) + DaysInYear(y + m / 12)
  {
    var ym := y + m / 12;
    var last := DaysInMonth(ym, 11);
    assert MakeDay(y, m, last + 1) == YearStart(ym) + MonthStart(ym, 11) + last by {
      MakeDayParts(y, m, last + 1, ym, 11);
    }
    assert MonthStart(ym, 11) + last == DaysInYear(ym) by {
      MonthStep(ym, 11);
    }
  }

  /** `MakeDay` once the month number is carried into the year. */
  lemma MakeDayParts(y: int, k: int, d: int, yy: int, mm: int)
    requires yy == y + k / 12 && mm == k % 12
    ensures 0 <= mm < 12
    ensures MakeDay(y, k, d) == YearStart(yy) + MonthStart(yy, mm) + d - 1
  {
    assert 0 <= mm < 12;
    var a := YearStart(yy);
    var b := MonthStart(yy, mm);
    assert MakeDay(y, k, d) == a + b + d - 1;
  }

  /** Month number `m + 1` is the next month of the same year, or January of the next. */
  lemma MonthNumberStep(m: int)
    ensures m % 12 < 11 ==> (m + 1) / 12 == m / 12 && (m + 1) % 12 == m % 12 + 1
    ensures m % 12 == 11 ==> (m + 1) / 12 == m / 12 + 1 && (m + 1) % 12 == 0
  {
    var q, r := m / 12, m % 12;
    assert m == 12 * q + r && 0 <= r < 12;
    if r < 11 {
      assert m + 1 == 12 * q + (r + 1);
    } else {
      assert m + 1 == 12 * (q + 1) + 0;
    }
  }

  /** Day 0 of month `m + 1` is the last day of month `m`. */
  lemma DayZero(y: int, m: int)
    ensures 0 <= m % 12 < 12
    ensures MakeDay(y, m + 1, 0) == MakeDay(y, m, DaysInMonth(y + m / 12, m % 12))
  {
    NextMonth(y, m);
  }

  /** A valid date lies within its year. */
  lemma DayWithinYear(c: Civil)
    requires ValidCivil(c)
    ensures YearStart(c.year) <= DayOf(c) < YearStart(c.year) + DaysInYear(c.year)
  {
    DayOfValid(c);
    YearLength(c.year);
    if c.month < 11 {
      MonthStartMonotone(c.year, c.month, 11);
    }
  }

  lemma {:induction false} YearStartMonotone(y1: int, y2: int)
    requires y1 < y2
    ensures YearStart(y1) + DaysInYear(y1) <= YearStart(y2)
    decreases y2 - y1
  {
    YearStartNext(y1);
    if y1 + 1 < y2 {
      YearStartMonotone(y1 + 1, y2);
    }
  }

  lemma {:induction false} MonthStartMonotone(y: int, m1: int, m2: int)
    requires 0 <= m1 < m2 < 12
    ensures MonthStart(y, m1) + DaysInMonth(y, m1) <= MonthStart(y, m2)
    decreases m2
  {
    if m1 + 1 < m2 {
      MonthStartMonotone(y, m1, m2 - 1);
    }
  }

  /** The day number of a valid date: its year's start, its month's start
      within the year, and its day. */
  lemma DayOfValid(c: Civil)
    requires ValidCivil(c)
    ensures DayOf(c) == YearStart(c.year) + MonthStart(c.year, c.month) + c.day - 1
  {
    assert c.month / 12 == 0 && c.month % 12 == c.month;
  }

  lemma CivilLessDay(a: Civil, b: Civil)
    requires ValidCivil(a) && ValidCivil(b) && CivilLess(a, b)
    ensures DayOf(a) < DayOf(b)
  {
    if a.year < b.year {
      DayWithinYear(a);
      DayWithinYear(b);
      YearStartMonotone(a.year, b.year);
    } else {
      DayOfValid(a);
      DayOfValid(b);
      if a.month < b.month {
        MonthStartMonotone(a.year, a.month, b.month);
      }
    }
  }

  /** Day numbers order valid dates exactly as the calendar does; in particular
      two valid dates with the same day number are the same date. */
  lemma DayOrder(a: Civil, b: Civil)
    requires ValidCivil(a) && ValidCivil(b)
    ensures DayOf(a) < DayOf(b) <==> CivilLess(a, b)
    ensures DayOf(a) == DayOf(b) <==> a == b
  {
    if CivilLess(a, b) {
      CivilLessDay(a, b);
    } else if CivilLess(b, a) {
      CivilLessDay(b, a);
    }
  }

  /** A valid date lies in month (y, m) exactly when its day number lies between
      the first and the last day of that month. */
  lemma WithinMonth(c: Civil, y: int, m: int)
    requires ValidCivil(c) && 0 <= m < 12
    ensures MakeDay(y, m, 1) <= DayOf(c) <= MakeDay(y, m, DaysInMonth(y, m))
            <==> c.year == y && c.month == m
  {
    var first := Civil(y, m, 1);
    var last := Civil(y, m, DaysInMonth(y, m));
    DayOrder(first, c);
    DayOrder(c, last);
  }

  /** Consecutive days fall on consecutive weekdays. */
  lemma WeekdayNext(day: int)
    ensures Weekday(day + 1) == (Weekday(day) + 1) % 7
  {
  }

  /** Months counted from year 0: consecutive months have consecutive indices. */
  function MonthIndex(c: Civil): int
  {
    c.year * 12 + c.month
  }

  /** Day `d` of a valid date's month, counted from that date: `d` may run
      outside the month. */
  lemma DayInMonth(c: Civil, d: int)
    requires ValidCivil(c)
    ensures MakeDay(c.year, c.month, d) == DayOf(c) - c.day + d
  {
    DayOfValid(c);
    assert c.month / 12 == 0 && c.month % 12 == c.month;
  }

  /** Month indices name months one to one. */
  lemma SameMonthIndex(c: Civil, y: int, m: int)
    requires 0 <= c.month < 12 && 0 <= m < 12
    ensures MonthIndex(c) == y * 12 + m <==> c.year == y && c.month == m
  {
    if c.year < y {
      assert c.year * 12 + 12 <= y * 12;
    } else if y < c.year {
      assert y * 12 + 12 <= c.year * 12;
    }
  }

  /** The month indices of year `y` are those from `y * 12` to `y * 12 + 11`. */
  lemma YearMonthIndices(c: Civil, y: int)
    requires 0 <= c.month < 12
    ensures y * 12 <= MonthIndex(c) <= y * 12 + 11 <==> c.year == y
  {
    if c.year < y {
      assert c.year * 12 + 12 <= y * 12;
    } else if y < c.year {
      assert y * 12 + 12 <= c.year * 12;
    }
  }

  /** The month before month `m` (0-based) of year `y`. */
  function PrevMonth(y: int, m: int): (r: (int, int))
    requires 0 <= m < 12
    ensures 0 <= r.1 < 12
  {
    if m == 0 then (y - 1, 11) else (y, m - 1)
  }

  /** The month after month `m` (0-based) of year `y`. */
  function NextMonthOf(y: int, m: int): (r: (int, int))
    requires 0 <= m < 12
    ensures 0 <= r.1 < 12
  {
    if m == 11 then (y + 1, 0) else (y, m + 1)
  }

  /** Counting days back from month `m` is counting them forward from the month before. */
  lemma StepBack(y: int, m: int, d: int)
    requires 0 <= m < 12
    ensures var p := PrevMonth(y, m);
      MakeDay(y, m, d) == MakeDay(p.0, p.1, d + DaysInMonth(p.0, p.1))
  {
    var p := PrevMonth(y, m);
    NextMonth(p.0, p.1);
    assert p.1 / 12 == 0 && p.1 % 12 == p.1;
    assert m / 12 == 0 && m % 12 == m;
    if m == 0 {
      assert (p.1 + 1) / 12 == 1 && (p.1 + 1) % 12 == 0;
    } else {
      assert (p.1 + 1) / 12 == 0 && (p.1 + 1) % 12 == m;
    }
  }

  /** Days past the end of month `m` are days of the month after. */
  lemma StepForward(y: int, m: int, d: int)
    requires 0 <= m < 12
    ensures var n := NextMonthOf(y, m);
      MakeDay(y, m, d) == MakeDay(n.0, n.1, d - DaysInMonth(y, m))
  {
    var n := NextMonthOf(y, m);
    assert PrevMonth(n.0, n.1) == (y, m);
    StepBack(n.0, n.1, d - DaysInMonth(y, m));
  }

  /** The last day of month `m` is day 0 of the month after. */
  lemma MonthEnd(y: int, m: int)
    requires 0 <= m < 12
    ensures MakeDay(y, m + 1, 0) == MakeDay(y, m, DaysInMonth(y, m))
  {
    DayZero(y, m);
    assert m / 12 == 0 && m % 12 == m;
  }

  /** A valid date is on or after the first day of month `m` of year `y`
      exactly when its month is that month or a later one. */
  lemma FromMonthStart(c: Civil, y: int, m: int)
    requires ValidCivil(c) && 0 <= m < 12
    ensures MakeDay(y, m, 1) <= DayOf(c) <==> y * 12 + m <= MonthIndex(c)
  {
    DayOrder(c, Civil(y, m, 1));
  }

  /** A valid date is on or before the last day of month `m` of year `y`
      exactly when its month is that month or an earlier one. */
  lemma ToMonthEnd(c: Civil, y: int, m: int)
    requires ValidCivil(c) && 0 <= m < 12
    ensures DayOf(c) <= MakeDay(y, m, DaysInMonth(y, m)) <==> MonthIndex(c) <= y * 12 + m
  {
    DayOrder(Civil(y, m, DaysInMonth(y, m)), c);
  }

  /** `new Date(y, k, d)` for any month number `k` is month `k % 12` of year `y + k / 12`. */
  lemma MonthCarry(y: int, k: int, d: int)
    ensures 0 <= k % 12 < 12
    ensures MakeDay(y, k, d) == MakeDay(y + k / 12, k % 12, d)
    ensures (y + k / 12) * 12 + k % 12 == y * 12 + k
  {
    assert (k % 12) / 12 == 0 && (k % 12) % 12 == k % 12;
  }
}
