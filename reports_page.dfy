/** The monthly report (ReportsPage.tsx): the trades of the current UTC
    month, narrowed by trade type and a search text, and their export as CSV
    text. */
module ReportsPage {
  import opened Types
  import opened Seqs
  import opened Text
  import opened Gregorian
  import opened DateText
  import opened DateUtils
  import opened TradeUtils

  // ---------------------------------------------------------------------------
  // The current month

  /** `Date.UTC(year, month - 1, day)` with `[year, month, day]` the first three
      parts of `tradeDate.split('-')` read by `Number`: each number is cut
      toward zero to an integer, years 0..99 are taken as 1900..1999, and months
      and days out of range roll over. A missing or unreadable part makes it NaN. */
  function TradeDateUtc(tradeDate: string): (r: Option<int>)
    ensures r.Some? <==>
              |Split(tradeDate, '-')| >= 3 && forall k :: 0 <= k < 3 ==> JsNumber(Split(tradeDate, '-')[k]).Some?
  {
    var parts := Split(tradeDate, '-');
    if |parts| < 3 then None
    else
      match (JsNumber(parts[0]), JsNumber(parts[1]), JsNumber(parts[2]))
      case (Some(y), Some(m), Some(d)) =>
        Some(TimeValue(MakeDay(FullYear(Truncate(y)), Truncate(m - 1.0), Truncate(d)), 0))
      case _ => None
  }

  /** `startOfMonth` to `endOfMonth` of the current UTC date `now`. */
  function MonthRange(now: Civil): Range
  {
    var y := FullYear(now.year);
    Range(TimeValue(MakeDay(y, now.month, 1), 0), TimeValue(MakeDay(y, now.month + 1, 0), EndOfDayMs))
  }

  function InMonthOf(now: Civil): Trade -> bool
  {
    (t: Trade) => TradeDateUtc(t.tradeDate).Some? && InRange(MonthRange(now), TradeDateUtc(t.tradeDate).value)
  }

  /** The `currentMonthTrades` memo, with the clock passed in. */
  function CurrentMonthTrades(trades: seq<Trade>, now: Civil): (r: seq<Trade>)
    ensures |r| <= |trades|
    ensures forall i :: 0 <= i < |r| ==> TradeDateUtc(r[i].tradeDate).Some? && InRange(MonthRange(now), TradeDateUtc(r[i].tradeDate).value)
    ensures forall t :: t in r <==> t in trades && InMonthOf(now)(t)
  {
    FilterMembers(trades, InMonthOf(now));
    Filter(trades, InMonthOf(now))
  }

  /** A `YYYY-MM-DD` date is read as the midnight of that date (years 0..99
      being taken as 1900..1999). */
  lemma IsoDateUtc(s: string, c: Civil)
    requires ParseIsoDate(s) == Some(c)
    ensures TradeDateUtc(s) == Some(TimeValue(MakeDay(FullYear(c.year), c.month, c.day), 0))
  {
    var parts := Split(s, '-');
    JsNumberDigits(parts[0]);
    JsNumberDigits(parts[1]);
    JsNumberDigits(parts[2]);
    TruncateInt(c.year);
    TruncateInt(c.month);
    TruncateInt(c.day);
    assert (c.month + 1) as real - 1.0 == c.month as real;
  }

  /** A day written with a fraction counts as its whole day, as `Date.UTC`
      cuts it toward zero: `2024-01-05.5` is read as `2024-01-05`. */
  lemma FractionalDay(y: string, m: string, d: string, f: string)
    requires AllDigits(y) && AllDigits(m) && AllDigits(d) && AllDigits(f) && d != []
    ensures TradeDateUtc(y + "-" + m + "-" + d + "." + f) == TradeDateUtc(y + "-" + m + "-" + d)
  {
    DatePartsSplit(y, m, d, f);
    FractionalNumber(d, f);
  }

  /** The date text splits into year, month and day, with or without a fraction. */
  lemma DatePartsSplit(y: string, m: string, d: string, f: string)
    requires AllDigits(y) && AllDigits(m) && AllDigits(d) && AllDigits(f)
    ensures Split(y + "-" + m + "-" + d + "." + f, '-') == [y, m, d + "." + f]
    ensures Split(y + "-" + m + "-" + d, '-') == [y, m, d]
  {
    var day := d + "." + f;
    DigitsHaveNo(y, '-');
    DigitsHaveNo(m, '-');
    DigitsHaveNo(d, '-');
    assert '-' !in day by {
      DigitsHaveNo(f, '-');
    }
    SplitThree(y, m, day);
    assert y + "-" + m + "-" + d + "." + f == y + "-" + m + "-" + day;
    SplitThree(y, m, d);
  }

  /** Digits with a fraction are read by `Number` and cut toward zero to the
      digits before the point. */
  lemma FractionalNumber(d: string, f: string)
    requires AllDigits(d) && AllDigits(f) && d != []
    ensures JsNumber(d + "." + f).Some? && JsNumber(d).Some?
    ensures Truncate(JsNumber(d + "." + f).value) == Truncate(JsNumber(d).value)
  {
    var day := d + "." + f;
    assert JsNumber(day) == Some(DecimalValue(d, f)) by {
      ReadDecimalText(false, d, true, f);
      assert "" + (d + ("." + f)) == day;
      WholeTextReads(day, DecimalValue(d, f));
    }
    TruncateDecimal(d, f);
    JsNumberDigits(d);
    TruncateInt(DigitsValue(d));
  }

  /** Three parts without a dash, joined by dashes, split back into those parts. */
  lemma SplitThree(a: string, b: string, c: string)
    requires '-' !in a && '-' !in b && '-' !in c
    ensures Split(a + "-" + b + "-" + c, '-') == [a, b, c]
  {
    assert a + "-" + b + "-" + c == a + ['-'] + (b + ['-'] + c);
    SplitFirst(a, '-', b + ['-'] + c);
    SplitFirst(b, '-', c);
    SplitNone(c, '-');
  }

  /** A trade with a valid date of a year from 100 on is a current-month trade
      exactly when its year and month are the current ones. */
  lemma CurrentMonthExactly(trades: seq<Trade>, now: Civil, t: Trade, c: Civil)
    requires ValidCivil(now) && t in trades
    requires ParseIsoDate(t.tradeDate) == Some(c) && c.year >= 100
    ensures t in CurrentMonthTrades(trades, now) <==> c.year == FullYear(now.year) && c.month == now.month
  {
    var y := FullYear(now.year);
    calc <==> {
      t in CurrentMonthTrades(trades, now);
      { FilterMember(trades, InMonthOf(now), t); }
      InMonthOf(now)(t);
      { InMonthByDay(now, t, c); }
      MakeDay(y, now.month, 1) <= DayOf(c) <= MakeDay(y, now.month + 1, 0);
      { MonthSpan(c, y, now.month, now.month); }
      y * 12 + now.month <= MonthIndex(c) <= y * 12 + now.month;
      { SameMonthIndex(c, y, now.month); }
      c.year == y && c.month == now.month;
    }
  }

  /** A trade with a valid date of a year from 100 on is in the current month's
      range exactly when its day lies between the month's first and last day. */
  lemma InMonthByDay(now: Civil, t: Trade, c: Civil)
    requires ParseIsoDate(t.tradeDate) == Some(c) && c.year >= 100
    ensures var y := FullYear(now.year);
      InMonthOf(now)(t) <==> MakeDay(y, now.month, 1) <= DayOf(c) <= MakeDay(y, now.month + 1, 0)
  {
    TradeDateMidnight(t.tradeDate, c);
    InMonthOnDay(now, t, DayOf(c));
  }

  /** A trade whose date is read as the midnight of `day` is in the current
      month's range exactly when `day` lies in the month. */
  lemma InMonthOnDay(now: Civil, t: Trade, day: int)
    requires TradeDateUtc(t.tradeDate) == Some(TimeValue(day, 0))
    ensures var y := FullYear(now.year);
      InMonthOf(now)(t) <==> MakeDay(y, now.month, 1) <= day <= MakeDay(y, now.month + 1, 0)
  {
    var y := FullYear(now.year);
    var first, last := MakeDay(y, now.month, 1), MakeDay(y, now.month + 1, 0);
    assert MonthRange(now) == Range(TimeValue(first, 0), TimeValue(last, EndOfDayMs));
    assert InMonthOf(now)(t) == InRange(MonthRange(now), TimeValue(day, 0));
    MidnightInRange(first, last, day);
  }

  /** A valid date of a year from 100 on is read as the midnight of its day. */
  lemma TradeDateMidnight(tradeDate: string, c: Civil)
    requires ParseIsoDate(tradeDate) == Some(c) && c.year >= 100
    ensures TradeDateUtc(tradeDate) == Some(TimeValue(DayOf(c), 0))
  {
    IsoDateUtc(tradeDate, c);
    assert FullYear(c.year) == c.year;
  }

  // ---------------------------------------------------------------------------
  // Type and text filter

  /** The type selector: 'all' or one trade type. */
  datatype TypeFilter = AnyType | OnlyType(tradeType: TradeType)

  predicate TypeMatches(filterType: TypeFilter, t: Trade)
  {
    filterType == AnyType || t.tradeType == filterType.tradeType
  }

  /** The lower-cased search text is empty or occurs in the strike or the
      lower-cased notes. */
  predicate TextMatches(searchText: string, t: Trade)
  {
    searchText == ""
    || Contains(ToLower(IntString(t.strike)), searchText)
    || (t.notes.Some? && Contains(ToLower(t.notes.value), searchText))
  }

  function Keeps(searchText: string, filterType: TypeFilter): Trade -> bool
  {
    (t: Trade) => TypeMatches(filterType, t) && TextMatches(searchText, t)
  }

  /** The `filteredTrades` memo over the current month's trades. */
  function ReportTrades(currentMonth: seq<Trade>, filterText: string, filterType: TypeFilter): (r: seq<Trade>)
    ensures |r| <= |currentMonth|
    ensures forall i :: 0 <= i < |r| ==> TypeMatches(filterType, r[i]) && TextMatches(ToLower(filterText), r[i])
  {
    Filter(currentMonth, Keeps(ToLower(filterText), filterType))
  }

  /** A trade is reported exactly when it is a current-month trade of the
      chosen type matching the search text. */
  lemma ReportedExactly(currentMonth: seq<Trade>, filterText: string, filterType: TypeFilter, t: Trade)
    ensures t in ReportTrades(currentMonth, filterText, filterType)
            <==> t in currentMonth && TypeMatches(filterType, t) && TextMatches(ToLower(filterText), t)
  {
    FilterMember(currentMonth, Keeps(ToLower(filterText), filterType), t);
  }

  /** With no search text and every type, the filter keeps the month's trades as they are. */
  lemma NoFilterKeepsAll(currentMonth: seq<Trade>)
    ensures ReportTrades(currentMonth, "", AnyType) == currentMonth
  {
    assert ToLower("") == "";
    FilterAll(currentMonth, Keeps("", AnyType));
  }

  // ---------------------------------------------------------------------------
  // CSV export

  /** `s.replace(/"/g, '""')`. */
  function DoubleQuotes(s: string): string
    decreases |s|
  {
    if s == [] then []
    else (if s[0] == '"' then "\"\"" else [s[0]]) + DoubleQuotes(s[1..])
  }

  /** A cell that holds a comma, a quote or a newline. */
  predicate NeedsQuotes(s: string)
  {
    ',' in s || '"' in s || '\n' in s
  }

  /** `escapeCsvCell`: an absent cell is empty; a cell holding a comma, a
      quote or a newline is quoted with its quotes doubled (rules 6 and 7 of
      section 2 of RFC 4180); any other cell is written as it is. */
  function EscapeCsvCell(cell: Option<string>): (r: string)
    ensures cell.None? ==> r == ""
    ensures var s := cell.GetOr("");
      !NeedsQuotes(s) ==> r == s
    ensures var s := cell.GetOr("");
      NeedsQuotes(s) ==>
        |r| >= 2 && r[0] == '"' && r[|r| - 1] == '"' && r[1..|r| - 1] == DoubleQuotes(s)
  {
    var s := cell.GetOr("");
    if NeedsQuotes(s) then "\"" + DoubleQuotes(s) + "\"" else s
  }

  /** Reading a field back: a doubled quote stands for one quote. */
  function UndoubleQuotes(s: string): string
    decreases |s|
  {
    if s == [] then []
    else if |s| >= 2 && s[0] == '"' && s[1] == '"' then "\"" + UndoubleQuotes(s[2..])
    else [s[0]] + UndoubleQuotes(s[1..])
  }

  /** A field as section 2 of RFC 4180 reads it: an enclosing pair of quotes
      is dropped and the doubled quotes inside are undone. */
  function UnescapeField(field: string): string
  {
    if |field| >= 2 && field[0] == '"' && field[|field| - 1] == '"' then
      UndoubleQuotes(field[1..|field| - 1])
    else field
  }

  lemma {:induction false} UndoubleDouble(s: string)
    ensures UndoubleQuotes(DoubleQuotes(s)) == s
    decreases |s|
  {
    if s != [] {
      UndoubleDouble(s[1..]);
      var rest := DoubleQuotes(s[1..]);
      if s[0] == '"' {
        assert DoubleQuotes(s) == "\"\"" + rest;
        assert (DoubleQuotes(s))[2..] == rest;
      } else {
        assert DoubleQuotes(s) == [s[0]] + rest;
        assert (DoubleQuotes(s))[1..] == rest;
      }
      assert [s[0]] + s[1..] == s;
    }
  }

  /** Every escaped cell reads back as the text it was made from. */
  lemma EscapeRoundTrip(cell: Option<string>)
    ensures UnescapeField(EscapeCsvCell(cell)) == cell.GetOr("")
  {
    var s := cell.GetOr("");
    if NeedsQuotes(s) {
      var e := EscapeCsvCell(cell);
      assert e[1..|e| - 1] == DoubleQuotes(s);
      UndoubleDouble(s);
    } else if |s| >= 2 {
      assert s[0] in s;
    }
  }

  /** One CSV cell before it is written: text, an integer (`String(n)`), a
      price (`String(x)`), or an amount written with `toFixed(2)`. */
  datatype Cell = Plain(text: string) | Whole(whole: int) | Price(price: real) | Fixed(amount: real)

  function CellText(c: Cell): string
  {
    match c
    case Plain(s) => s
    case Whole(i) => IntString(i)
    case Price(x) => NumberString(x)
    case Fixed(x) => FixedTwo(x)
  }

  const Headers: seq<string> := [
    "Trade Date", "Trade Day", "Strike", "Quantity", "Total PNL",
    "CE Entry", "CE Exit", "CE SL", "CE Entry Time", "CE Exit Time", "CE PNL",
    "PE Entry", "PE Exit", "PE Entry Time", "PE Exit Time", "PE SL", "PE PNL",
    "Notes"]

  function HeaderLine(): string
  {
    Join(Headers, ',')
  }

  /** The cells of one trade's record, in the header's order. */
  function Record(t: Trade): (r: seq<Cell>)
    ensures |r| == |Headers| == 18
    ensures r[4].Fixed? && r[10].Fixed? && r[16].Fixed? && r[4].amount == r[10].amount + r[16].amount
  {
    [Plain(t.tradeDate), Plain(TradeDay(t.tradeDate)), Whole(t.strike), Whole(t.quantity), Fixed(Pnl(t)),
     Price(t.ceEntryPrice), Price(t.ceExitPrice), Fixed(Sl(t.ceEntryPrice)),
     Plain(t.ceEntryTime), Plain(t.ceExitTime),
     Fixed(LegPnl(t.ceEntryPrice, t.ceExitPrice, t.quantity, t.tradeType)),
     Price(t.peEntryPrice), Price(t.peExitPrice), Plain(t.peEntryTime), Plain(t.peExitTime),
     Fixed(Sl(t.peEntryPrice)),
     Fixed(LegPnl(t.peEntryPrice, t.peExitPrice, t.quantity, t.tradeType)),
     Plain(EscapeCsvCell(t.notes))]
  }

  function RecordLine(t: Trade): string
  {
    Join(Map(Record(t), CellText), ',')
  }

  /** `csvRows`: the header line, then one line per trade in order. */
  function CsvRows(trades: seq<Trade>): (r: seq<string>)
    ensures |r| == |trades| + 1 && r[0] == HeaderLine()
    ensures forall i :: 0 <= i < |trades| ==> r[i + 1] == RecordLine(trades[i])
  {
    seq(|trades| + 1, i requires 0 <= i <= |trades| => if i == 0 then HeaderLine() else RecordLine(trades[i - 1]))
  }

  /** `exportToCsv` without the download: nothing when there is nothing to
      export, otherwise the rows joined by newlines. */
  function ExportCsv(trades: seq<Trade>): (r: Option<string>)
    ensures r.None? <==> trades == []
  {
    if trades == [] then None else Some(Join(CsvRows(trades), '\n'))
  }

  /** The header line splits back into its 18 column names. */
  lemma HeaderColumns()
    ensures Split(HeaderLine(), ',') == Headers
  {
    SplitJoin(Headers, ',');
  }

  /** The notes cell of every record reads back as the trade's notes. */
  lemma RecordNotes(t: Trade)
    ensures UnescapeField(CellText(Record(t)[17])) == t.notes.GetOr("")
  {
    EscapeRoundTrip(t.notes);
  }
}
