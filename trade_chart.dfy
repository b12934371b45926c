/** The cumulative P/L series of the chart (TradeChart.tsx): the trades in
    order of their CE exit moment, each with its P/L and the running total. */
module TradeChart {
  import opened Types
  import opened Seqs
  import opened Text
  import opened Gregorian
  import opened DateText
  import opened TradeUtils

  /** A time of day `HH:MM` or `HH:MM:SS` read as milliseconds since midnight;
      `24:00` is the end of the day. Anything else is an invalid date. */
  function ParseTime(s: string): (r: Option<int>)
    ensures r.Some? ==> 0 <= r.value <= MsPerDay
  {
    var parts := Split(s, ':');
    if (|parts| == 2 || |parts| == 3)
       && (forall k :: 0 <= k < |parts| ==> |parts[k]| == 2 && AllDigits(parts[k]))
    then
      var h := DigitsValue(parts[0]);
      var m := DigitsValue(parts[1]);
      var sec := if |parts| == 3 then DigitsValue(parts[2]) else 0;
      if (h < 24 && m < 60 && sec < 60) || (h == 24 && m == 0 && sec == 0) then
        Some(h * 3600000 + m * 60000 + sec * 1000)
      else None
    else None
  }

  /** `HH:MM:SS`, the form the entry form writes. */
  function TimeText(h: nat, m: nat, s: nat): string
  {
    Pad2(h) + ":" + Pad2(m) + ":" + Pad2(s)
  }

  lemma DigitsHaveNoColon(s: string)
    requires AllDigits(s)
    ensures ':' !in s
  {
    forall i | 0 <= i < |s| ensures s[i] != ':' { assert IsDigit(s[i]); }
  }

  /** Every written time of day reads back as its milliseconds since midnight. */
  lemma ParseTimeText(h: nat, m: nat, s: nat)
    requires h < 24 && m < 60 && s < 60
    ensures ParseTime(TimeText(h, m, s)) == Some(h * 3600000 + m * 60000 + s * 1000)
  {
    var a, b, c := Pad2(h), Pad2(m), Pad2(s);
    DigitsHaveNoColon(a);
    DigitsHaveNoColon(b);
    DigitsHaveNoColon(c);
    assert TimeText(h, m, s) == a + [':'] + (b + [':'] + c);
    SplitFirst(a, ':', b + [':'] + c);
    SplitFirst(b, ':', c);
    SplitNone(c, ':');
    assert Split(TimeText(h, m, s), ':') == [a, b, c];
  }

  /** `new Date(`${tradeDate}T${ceExitTime}`).getTime()`: the moment the CE leg
      was closed, or nothing (NaN) when either part does not read. */
  function ExitMoment(t: Trade): Option<int>
  {
    match (ParseIsoDate(t.tradeDate), ParseTime(t.ceExitTime))
    case (Some(c), Some(ms)) => Some(TimeValue(DayOf(c), ms))
    case _ => None
  }

  /** The sort comparator is positive: both moments exist and `a`'s is later.
      A NaN difference counts as zero. The moment is a parameter so that the
      sorting lemmas need not look inside it. */
  predicate ClosedLater(key: Trade -> Option<int>, a: Trade, b: Trade)
  {
    key(a).Some? && key(b).Some? && key(a).value > key(b).value
  }

  /** No trade is followed by one it compares after. */
  predicate InOrder(key: Trade -> Option<int>, s: seq<Trade>)
  {
    forall i, j :: 0 <= i < j < |s| ==> !ClosedLater(key, s[i], s[j])
  }

  /** Places `x` before the first trade that closed later, after every other. */
  function Insert(key: Trade -> Option<int>, x: Trade, s: seq<Trade>): (r: seq<Trade>)
    ensures |r| == |s| + 1 && multiset(r) == multiset(s) + multiset{x}
    decreases |s|
  {
    if s == [] then [x]
    else if ClosedLater(key, s[0], x) then [x] + s
    else
      assert s == [s[0]] + s[1..];
      [s[0]] + Insert(key, x, s[1..])
  }

  /** A stable insertion sort by `key`, on a copy. */
  function SortBy(key: Trade -> Option<int>, trades: seq<Trade>): (r: seq<Trade>)
    ensures |r| == |trades| && multiset(r) == multiset(trades)
    decreases |trades|
  {
    if trades == [] then []
    else
      var front := trades[..|trades| - 1];
      assert trades == front + [trades[|trades| - 1]];
      Insert(key, trades[|trades| - 1], SortBy(key, front))
  }

  /** `[...trades].sort((a, b) => moment(a) - moment(b))`. */
  function SortByExit(trades: seq<Trade>): seq<Trade>
  {
    SortBy(ExitMoment, trades)
  }

  /** A trade that no later trade is compared before can lead a sequence in order. */
  lemma ConsInOrder(key: Trade -> Option<int>, a: Trade, s: seq<Trade>)
    requires InOrder(key, s)
    requires forall j :: 0 <= j < |s| ==> !ClosedLater(key, a, s[j])
    ensures InOrder(key, [a] + s)
  {
    var r := [a] + s;
    forall i, j | 0 <= i < j < |r| ensures !ClosedLater(key, r[i], r[j]) {
      assert r[j] == s[j - 1];
      if i > 0 {
        assert r[i] == s[i - 1];
      }
    }
  }

  /** Inserting into a sequence in order keeps it in order. */
  lemma {:induction false} InsertInOrder(key: Trade -> Option<int>, x: Trade, s: seq<Trade>)
    requires InOrder(key, s)
    ensures InOrder(key, Insert(key, x, s))
    decreases |s|
  {
    if s != [] {
      if ClosedLater(key, s[0], x) {
        forall j | 0 <= j < |s| ensures !ClosedLater(key, x, s[j]) {
          if j > 0 {
            assert !ClosedLater(key, s[0], s[j]);
          }
        }
        ConsInOrder(key, x, s);
      } else {
        var rest := Insert(key, x, s[1..]);
        InsertInOrder(key, x, s[1..]);
        forall j | 0 <= j < |rest| ensures !ClosedLater(key, s[0], rest[j]) {
          assert rest[j] in multiset(s[1..]) + multiset{x};
          if rest[j] != x {
            var k :| 0 <= k < |s[1..]| && s[1..][k] == rest[j];
            assert s[k + 1] == rest[j];
          }
        }
        ConsInOrder(key, s[0], rest);
      }
    }
  }

  /** The sorted copy is in order. */
  lemma {:induction false} SortInOrder(key: Trade -> Option<int>, trades: seq<Trade>)
    ensures InOrder(key, SortBy(key, trades))
    decreases |trades|
  {
    if trades != [] {
      SortInOrder(key, trades[..|trades| - 1]);
      InsertInOrder(key, trades[|trades| - 1], SortBy(key, trades[..|trades| - 1]));
    }
  }

  /** The chart's copy holds the same trades, each as often, and when every
      trade has a readable date and exit time its exit moments never decrease. */
  lemma SortedByMoment(trades: seq<Trade>)
    ensures multiset(SortByExit(trades)) == multiset(trades)
    ensures (forall t :: t in trades ==> ExitMoment(t).Some?) ==>
      var r := SortByExit(trades);
      forall i, j :: 0 <= i < j < |r| ==>
        ExitMoment(r[i]).Some? && ExitMoment(r[j]).Some? && ExitMoment(r[i]).value <= ExitMoment(r[j]).value
  {
    var r := SortByExit(trades);
    SortInOrder(ExitMoment, trades);
    if forall t :: t in trades ==> ExitMoment(t).Some? {
      forall i | 0 <= i < |r| ensures ExitMoment(r[i]).Some? {
        assert r[i] in multiset(trades);
      }
      forall i, j | 0 <= i < j < |r| ensures ExitMoment(r[i]).value <= ExitMoment(r[j]).value {
        assert !ClosedLater(ExitMoment, r[i], r[j]);
      }
    }
  }

  /** The exit moment orders trades by date first and by CE exit time within a date. */
  lemma ExitMomentOrder(a: Trade, b: Trade, ca: Civil, cb: Civil)
    requires ParseIsoDate(a.tradeDate) == Some(ca) && ParseIsoDate(b.tradeDate) == Some(cb)
    requires ParseTime(a.ceExitTime).Some? && ParseTime(b.ceExitTime).Some?
    ensures CivilLess(ca, cb) ==> ExitMoment(a).value <= ExitMoment(b).value
    ensures ca == cb ==>
      (ExitMoment(a).value < ExitMoment(b).value <==> ParseTime(a.ceExitTime).value < ParseTime(b.ceExitTime).value)
  {
    DayOrder(ca, cb);
  }

  /** Inserting a trade adds its value to the total. */
  lemma {:induction false} InsertTotal(key: Trade -> Option<int>, f: Trade -> real, x: Trade, s: seq<Trade>)
    ensures Sum(Map(Insert(key, x, s), f)) == Sum(Map(s, f)) + f(x)
    decreases |s|
  {
    if s == [] {
      SumSingle(f(x));
      assert Map([x], f) == [f(x)];
    } else if ClosedLater(key, s[0], x) {
      assert Map([x] + s, f) == [f(x)] + Map(s, f);
      SumConcat([f(x)], Map(s, f));
      SumSingle(f(x));
    } else {
      InsertTotal(key, f, x, s[1..]);
      var rest := Insert(key, x, s[1..]);
      assert Map([s[0]] + rest, f) == [f(s[0])] + Map(rest, f);
      SumConcat([f(s[0])], Map(rest, f));
      assert Map(s, f) == [f(s[0])] + Map(s[1..], f);
      SumConcat([f(s[0])], Map(s[1..], f));
      SumSingle(f(s[0]));
    }
  }

  /** Sorting does not change a total over the trades. */
  lemma {:induction false} SortKeepsTotal(key: Trade -> Option<int>, f: Trade -> real, trades: seq<Trade>)
    ensures Sum(Map(SortBy(key, trades), f)) == Sum(Map(trades, f))
    decreases |trades|
  {
    if trades != [] {
      var front, last := trades[..|trades| - 1], trades[|trades| - 1];
      calc {
        Sum(Map(SortBy(key, trades), f));
        Sum(Map(Insert(key, last, SortBy(key, front)), f));
        { InsertTotal(key, f, last, SortBy(key, front)); }
        Sum(Map(SortBy(key, front), f)) + f(last);
        { SortKeepsTotal(key, f, front); }
        Sum(Map(front, f)) + f(last);
        { MapSumStep(front, last, f); assert front + [last] == trades; }
        Sum(Map(trades, f));
      }
    }
  }

  lemma MapSumStep<T>(s: seq<T>, x: T, f: T -> real)
    ensures Sum(Map(s + [x], f)) == Sum(Map(s, f)) + f(x)
  {
    assert Map(s + [x], f) == Map(s, f) + [f(x)];
    SumStep(Map(s, f), f(x));
  }

  /** The running total up to and including trade `i`. */
  lemma RunningTotalStep(sorted: seq<Trade>, i: int)
    requires 0 <= i < |sorted|
    ensures Sum(Map(sorted[..i + 1], Pnl)) == Sum(Map(sorted[..i], Pnl)) + Pnl(sorted[i])
  {
    assert sorted[..i + 1] == sorted[..i] + [sorted[i]];
    MapSumStep(sorted[..i], sorted[i], Pnl);
  }

  /** One point of the chart. */
  datatype ChartPoint = ChartPoint(name: string, strike: int, pnl: real, cumulativePl: real)

  function PointAt(sorted: seq<Trade>, i: int): ChartPoint
    requires 0 <= i < |sorted|
  {
    ChartPoint("Trade " + DecimalString(i + 1), sorted[i].strike, Pnl(sorted[i]), Sum(Map(sorted[..i + 1], Pnl)))
  }

  /** The walk over the sorted copy: point `i` is named `Trade i+1` and
      carries the trade's strike, its P/L and the running total up to and
      including it. */
  method Accumulate(sorted: seq<Trade>) returns (points: seq<ChartPoint>)
    ensures |points| == |sorted|
    ensures forall i :: 0 <= i < |points| ==>
      points[i].name == "Trade " + DecimalString(i + 1) && points[i].strike == sorted[i].strike
      && points[i].pnl == Pnl(sorted[i]) && points[i].cumulativePl == Sum(Map(sorted[..i + 1], Pnl))
  {
    var cumulativePl := 0.0;
    points := [];
    var index := 0;
    while index < |sorted|
      invariant 0 <= index <= |sorted| && |points| == index
      invariant cumulativePl == Sum(Map(sorted[..index], Pnl))
      invariant forall i :: 0 <= i < index ==> points[i] == PointAt(sorted, i)
    {
      var trade := sorted[index];
      var pnl := Pnl(trade);
      RunningTotalStep(sorted, index);
      cumulativePl := cumulativePl + pnl;
      var point := ChartPoint("Trade " + DecimalString(index + 1), trade.strike, pnl, cumulativePl);
      assert point == PointAt(sorted, index);
      points := points + [point];
      index := index + 1;
    }
  }

  /** The `chartData` memo: nothing for no trades; otherwise the points of the
      sorted copy, the last of which carries the total P/L of all the trades. */
  method ChartData(trades: seq<Trade>) returns (points: seq<ChartPoint>)
    ensures |points| == |trades|
    ensures var sorted := SortByExit(trades);
      forall i :: 0 <= i < |points| ==>
        points[i].name == "Trade " + DecimalString(i + 1) && points[i].strike == sorted[i].strike
        && points[i].pnl == Pnl(sorted[i]) && points[i].cumulativePl == Sum(Map(sorted[..i + 1], Pnl))
    ensures |points| > 0 ==> points[|points| - 1].cumulativePl == Sum(Map(trades, Pnl))
  {
    if |trades| == 0 {
      return [];
    }
    var sorted := SortByExit(trades);
    points := Accumulate(sorted);
    assert sorted[..|sorted|] == sorted;
    SortKeepsTotal(ExitMoment, Pnl, trades);
  }
}
