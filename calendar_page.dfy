/** The trade calendar (CalendarPage.tsx): the trades grouped by date, the
    month grid with its leading blank cells, and each day's P/L and colour. */
module CalendarPage {
  import opened Types
  import opened Seqs
  import opened Text
  import opened Gregorian
  import opened DateText
  import opened JsDates
  import opened TradeUtils

  /** `tradeDate.split('T')[0]`: the date part of a stored date. */
  function DatePrefix(tradeDate: string): string
  {
    Split(tradeDate, 'T')[0]
  }

  function OnDate(key: string): Trade -> bool
  {
    (t: Trade) => DatePrefix(t.tradeDate) == key
  }

  /** The date keys that occur among the trades. */
  predicate KeyOccurs(trades: seq<Trade>, key: string)
  {
    exists i :: 0 <= i < |trades| && DatePrefix(trades[i].tradeDate) == key
  }

  /** `byDate` groups `trades`: one bucket per date key that occurs, holding
      the trades with that key in their original order. */
  ghost predicate Grouped(trades: seq<Trade>, byDate: map<string, seq<Trade>>)
  {
    (forall k :: k in byDate <==> KeyOccurs(trades, k))
    && (forall k :: k in byDate ==> byDate[k] == Filter(trades, OnDate(k)))
  }

  /** The `tradesByDate` memo. */
  method TradesByDate(trades: seq<Trade>) returns (byDate: map<string, seq<Trade>>)
    ensures forall k :: k in byDate <==> KeyOccurs(trades, k)
    ensures forall k :: k in byDate ==> byDate[k] == Filter(trades, OnDate(k))
  {
    byDate := map[];
    var i := 0;
    while i < |trades|
      invariant 0 <= i <= |trades|
      invariant Grouped(trades[..i], byDate)
    {
      var trade := trades[i];
      var date := DatePrefix(trade.tradeDate);
      GroupStep(trades[..i], trade, byDate);
      assert trades[..i + 1] == trades[..i] + [trade];
      if date !in byDate {
        byDate := byDate[date := []];
      }
      byDate := byDate[date := byDate[date] + [trade]];
      i := i + 1;
    }
    assert trades[..|trades|] == trades;
  }

  /** Pushing one more trade into the bucket of its date keeps the grouping. */
  lemma GroupStep(trades: seq<Trade>, trade: Trade, byDate: map<string, seq<Trade>>)
    requires Grouped(trades, byDate)
    ensures var date := DatePrefix(trade.tradeDate);
      Grouped(trades + [trade], byDate[date := DayTrades(byDate, date) + [trade]])
  {
    var date := DatePrefix(trade.tradeDate);
    var after := byDate[date := DayTrades(byDate, date) + [trade]];
    var all := trades + [trade];
    forall k | k in after ensures after[k] == Filter(all, OnDate(k)) {
      FilterStep(trades, trade, OnDate(k));
      if k == date && date !in byDate {
        FilterNone(trades, OnDate(date));
      }
    }
    forall k ensures k in after <==> KeyOccurs(all, k) {
      KeyOccursStep(trades, trade, k);
    }
  }

  /** One more trade adds its own key to the keys that occur. */
  lemma KeyOccursStep(trades: seq<Trade>, trade: Trade, k: string)
    ensures KeyOccurs(trades + [trade], k) <==> KeyOccurs(trades, k) || k == DatePrefix(trade.tradeDate)
  {
    var all := trades + [trade];
    if KeyOccurs(all, k) && k != DatePrefix(trade.tradeDate) {
      var j :| 0 <= j < |all| && DatePrefix(all[j].tradeDate) == k;
      assert j < |trades| && trades[j] == all[j];
    }
    if KeyOccurs(trades, k) {
      var j :| 0 <= j < |trades| && DatePrefix(trades[j].tradeDate) == k;
      assert all[j] == trades[j];
    }
    if k == DatePrefix(trade.tradeDate) {
      assert all[|trades|] == trade;
    }
  }

  /** The total size of the buckets named in `keys`. */
  function BucketSizes(trades: seq<Trade>, keys: seq<string>): nat
    decreases |keys|
  {
    if keys == [] then 0
    else BucketSizes(trades, keys[..|keys| - 1]) + |Filter(trades, OnDate(keys[|keys| - 1]))|
  }

  lemma {:induction false} BucketSizesEmpty(keys: seq<string>)
    ensures BucketSizes([], keys) == 0
    decreases |keys|
  {
    if keys != [] {
      BucketSizesEmpty(keys[..|keys| - 1]);
    }
  }

  /** One more trade adds one to the total exactly when its key is named once. */
  lemma {:induction false} BucketSizesStep(trades: seq<Trade>, t: Trade, keys: seq<string>)
    requires forall i, j :: 0 <= i < j < |keys| ==> keys[i] != keys[j]
    ensures BucketSizes(trades + [t], keys)
            == BucketSizes(trades, keys) + (if DatePrefix(t.tradeDate) in keys then 1 else 0)
    decreases |keys|
  {
    if keys != [] {
      var n := |keys| - 1;
      var front, d := keys[..n], DatePrefix(t.tradeDate);
      var onLast := OnDate(keys[n]);
      var inFront, isLast := if d in front then 1 else 0, if d == keys[n] then 1 else 0;
      assert BucketSizes(trades + [t], front) == BucketSizes(trades, front) + inFront by {
        DistinctFront(keys);
        BucketSizesStep(trades, t, front);
      }
      assert |Filter(trades + [t], onLast)| == |Filter(trades, onLast)| + isLast by {
        FilterStep(trades, t, onLast);
      }
      assert (if d in keys then 1 else 0) == inFront + isLast by {
        LastKeyMember(keys, d);
      }
    }
  }

  /** The keys before the last are distinct too. */
  lemma DistinctFront(keys: seq<string>)
    requires keys != []
    requires forall i, j :: 0 <= i < j < |keys| ==> keys[i] != keys[j]
    ensures var front := keys[..|keys| - 1];
      forall i, j :: 0 <= i < j < |front| ==> front[i] != front[j]
  {
  }

  /** A key is named by distinct keys either before the last one or as the
      last one, never both. */
  lemma LastKeyMember(keys: seq<string>, d: string)
    requires keys != []
    requires forall i, j :: 0 <= i < j < |keys| ==> keys[i] != keys[j]
    ensures var front, last := keys[..|keys| - 1], keys[|keys| - 1];
      (d in keys <==> d in front || d == last) && !(d in front && d == last)
  {
    var n := |keys| - 1;
    var front := keys[..n];
    if d in keys {
      var i :| 0 <= i < |keys| && keys[i] == d;
      if i < n {
        assert front[i] == d;
      }
    }
    if d in front {
      var i :| 0 <= i < n && front[i] == d;
      assert keys[i] == d;
    }
  }

  /** The buckets of all the keys that occur, each counted once, hold every
      trade exactly once. */
  lemma {:induction false} BucketsHoldEveryTrade(trades: seq<Trade>, keys: seq<string>)
    requires forall i, j :: 0 <= i < j < |keys| ==> keys[i] != keys[j]
    requires forall i :: 0 <= i < |trades| ==> DatePrefix(trades[i].tradeDate) in keys
    ensures BucketSizes(trades, keys) == |trades|
    decreases |trades|
  {
    if trades == [] {
      BucketSizesEmpty(keys);
    } else {
      var front, last := trades[..|trades| - 1], trades[|trades| - 1];
      BucketsHoldEveryTrade(front, keys);
      BucketSizesStep(front, last, keys);
      assert front + [last] == trades;
    }
  }

  /** `tradesByDate.get(dateStr) || []`. */
  function DayTrades(byDate: map<string, seq<Trade>>, key: string): seq<Trade>
  {
    if key in byDate then byDate[key] else []
  }

  /** Looking a key up in the grouping gives the trades of that date, and none
      for a date without trades. */
  lemma DayTradesOfKey(trades: seq<Trade>, byDate: map<string, seq<Trade>>, key: string)
    requires Grouped(trades, byDate)
    ensures DayTrades(byDate, key) == Filter(trades, OnDate(key))
  {
    if key !in byDate {
      FilterNone(trades, OnDate(key));
    }
  }

  /** A trade stored with a valid `YYYY-MM-DD` date of a four-digit year sits
      in the bucket the grid looks up for that date. */
  lemma TradeOnItsDay(trades: seq<Trade>, t: Trade, c: Civil)
    requires t in trades && ParseIsoDate(t.tradeDate) == Some(c) && c.year >= 1000
    ensures t in Filter(trades, OnDate(DateKey(c)))
  {
    IsoDateIsKey(t.tradeDate, c);
    var y, m, d := IntString(c.year), Pad2(c.month + 1), Pad2(c.day);
    DigitsHaveNo(y, 'T');
    DigitsHaveNo(m, 'T');
    DigitsHaveNo(d, 'T');
    assert t.tradeDate == y + "-" + m + "-" + d;
    SplitNone(t.tradeDate, 'T');
  }

  /** `dayPnl`: the sum of the day's trades' P/L, 0 for a day without trades. */
  function DayPnl(dayTrades: seq<Trade>): (r: real)
    ensures dayTrades == [] ==> r == 0.0
  {
    Sum(Map(dayTrades, Pnl))
  }

  /** A day cell's colour. */
  datatype Tone = Plain | Green | Red

  /** Green for a day with trades and a gain, red for a day with trades and a
      loss, plain otherwise. */
  function DayTone(dayTrades: seq<Trade>): (r: Tone)
    ensures r == Green <==> dayTrades != [] && DayPnl(dayTrades) > 0.0
    ensures r == Red <==> dayTrades != [] && DayPnl(dayTrades) < 0.0
  {
    if |dayTrades| > 0 then
      var dayPnl := DayPnl(dayTrades);
      if dayPnl > 0.0 then Green else if dayPnl < 0.0 then Red else Plain
    else Plain
  }

  /** A cell of the month grid: a blank before the 1st, or a day of the month. */
  datatype GridCell = Blank(index: nat) | DayCell(day: int)

  /** The grid of a month whose 1st falls on weekday `startDay`: that many
      blanks, then one cell per day. */
  method GridCells(startDay: nat, daysInMonth: nat) returns (cells: seq<GridCell>)
    ensures |cells| == startDay + daysInMonth
    ensures forall i :: 0 <= i < startDay ==> cells[i] == Blank(i)
    ensures forall d :: 1 <= d <= daysInMonth ==> cells[startDay + d - 1] == DayCell(d)
  {
    cells := seq(startDay, i requires 0 <= i => Blank(i));
    var day := 1;
    while day <= daysInMonth
      invariant 1 <= day <= daysInMonth + 1
      invariant |cells| == startDay + day - 1
      invariant forall i :: 0 <= i < startDay ==> cells[i] == Blank(i)
      invariant forall d :: 1 <= d < day ==> cells[startDay + d - 1] == DayCell(d)
    {
      cells := cells + [DayCell(day)];
      day := day + 1;
    }
  }

  /** The calendar page's state: the month on show. */
  class Calendar {
    var currentDate: JsDate

    predicate Valid()
      reads this, currentDate
    {
      currentDate.Valid()
    }

    /** `useState(new Date())`. */
    constructor (now: Civil, ms: int)
      requires ValidCivil(now) && 0 <= ms < MsPerDay
      ensures Valid() && fresh(currentDate)
      ensures currentDate.year == now.year && currentDate.month == now.month && currentDate.date == now.day
    {
      currentDate := new JsDate.At(now, ms);
    }

    /** `calendarDays`: `startDay` blanks, where `startDay` is the weekday of
        the 1st, then the days 1 to the month's length in order. The month is
        read back through `new Date(getFullYear(), getMonth(), ...)`. */
    method CalendarDays() returns (cells: seq<GridCell>)
      requires Valid()
      ensures var y, m := FullYear(currentDate.year), currentDate.month;
        var startDay := Weekday(MakeDay(y, m, 1));
        |cells| == startDay + DaysInMonth(y, m)
        && (forall i :: 0 <= i < startDay ==> cells[i] == Blank(i))
        && (forall d :: 1 <= d <= DaysInMonth(y, m) ==> cells[startDay + d - 1] == DayCell(d))
    {
      var startOfMonth := new JsDate.Of(currentDate.year, currentDate.month, 1);
      var endOfMonth := new JsDate.Of(currentDate.year, currentDate.month + 1, 0);
      var startDay := startOfMonth.GetDay();
      MonthLength(endOfMonth, FullYear(currentDate.year), currentDate.month);
      var daysInMonth := endOfMonth.date;
      cells := GridCells(startDay, daysInMonth);
    }

    /** `nextMonth`: the 1st of the following month. */
    method NextMonth()
      requires Valid()
      modifies this
      ensures Valid() && fresh(currentDate)
      ensures currentDate.Day() == MakeDay(FullYear(old(currentDate.year)), old(currentDate.month) + 1, 1)
    {
      currentDate := new JsDate.Of(currentDate.year, currentDate.month + 1, 1);
    }

    /** `prevMonth`: the 1st of the preceding month. */
    method PrevMonth()
      requires Valid()
      modifies this
      ensures Valid() && fresh(currentDate)
      ensures currentDate.Day() == MakeDay(FullYear(old(currentDate.year)), old(currentDate.month) - 1, 1)
    {
      currentDate := new JsDate.Of(currentDate.year, currentDate.month - 1, 1);
    }
  }

  /** `new Date(y, m + 1, 0).getDate()` is the length of month `m`. */
  lemma MonthLength(endOfMonth: JsDate, y: int, m: int)
    requires endOfMonth.Valid() && 0 <= m < 12
    requires endOfMonth.Day() == MakeDay(y, m + 1, 0)
    ensures endOfMonth.date == DaysInMonth(y, m)
  {
    MonthEnd(y, m);
    DayOrder(Civil(endOfMonth.year, endOfMonth.month, endOfMonth.date), Civil(y, m, DaysInMonth(y, m)));
  }

  /** The valid date on the day `new Date(y, k, 1)` names is the 1st of month
      `y * 12 + k` in month-index terms, whatever the range of `k`. */
  lemma MonthFirst(c: Civil, y: int, k: int)
    requires ValidCivil(c) && DayOf(c) == MakeDay(y, k, 1)
    ensures c.day == 1 && MonthIndex(c) == y * 12 + k
  {
    var ym, mn := y + k / 12, k % 12;
    MonthCarry(y, k, 1);
    var first := Civil(ym, mn, 1);
    assert ValidCivil(first);
    assert DayOf(first) == MakeDay(ym, mn, 1) by {
      DayOfValid(first);
      assert mn / 12 == 0 && mn % 12 == mn;
    }
    DayOrder(c, first);
  }

  /** Going forward a month and back again lands on the 1st of the month
      started from, for years from 100 on (the `Date` constructor reads years
      0..99 as 1900..1999). */
  lemma NextThenPrev(c: Civil, n: Civil, p: Civil)
    requires ValidCivil(c) && ValidCivil(n) && ValidCivil(p) && c.year >= 100
    requires DayOf(n) == MakeDay(FullYear(c.year), c.month + 1, 1)
    requires DayOf(p) == MakeDay(FullYear(n.year), n.month - 1, 1)
    ensures p == Civil(c.year, c.month, 1)
  {
    MonthFirst(n, c.year, c.month + 1);
    assert n.year >= 100;
    MonthFirst(p, n.year, n.month - 1);
    assert MonthIndex(p) == MonthIndex(c);
    assert p.year * 12 + p.month == c.year * 12 + c.month;
  }
}
