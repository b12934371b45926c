/** The profit-and-loss calculators shared by every page (tradeUtils.ts). */
module TradeUtils {
  import opened Types
  import opened Gregorian
  import opened DateText

  /** `calculateLegPnl`: the P/L of one leg. A short (SELL) leg earns when the
      price falls, a long (BUY) leg when it rises. */
  function LegPnl(entry: real, exit: real, quantity: int, tradeType: TradeType): (r: real)
    ensures quantity == 0 || entry == exit ==> r == 0.0
  {
    if tradeType == Sell then (entry - exit) * quantity as real
    else (exit - entry) * quantity as real
  }

  /** For a positive quantity, a short leg gains exactly when the price fell
      and a long leg exactly when it rose, and the two sides of the same move
      are opposite. */
  lemma LegPnlSign(entry: real, exit: real, quantity: int, tradeType: TradeType)
    ensures quantity > 0 ==>
      (LegPnl(entry, exit, quantity, tradeType) > 0.0 <==> if tradeType == Sell then exit < entry else entry < exit)
    ensures quantity > 0 ==>
      (LegPnl(entry, exit, quantity, tradeType) < 0.0 <==> if tradeType == Sell then entry < exit else exit < entry)
    ensures LegPnl(entry, exit, quantity, Sell) == -LegPnl(entry, exit, quantity, Buy)
  {
  }

  /** `calculatePnl`: the P/L of both legs together. The source writes it with the
      per-unit differences of the two legs; the result is the sum of the legs' P/L. */
  function Pnl(t: Trade): (r: real)
    ensures r == LegPnl(t.ceEntryPrice, t.ceExitPrice, t.quantity, t.tradeType)
               + LegPnl(t.peEntryPrice, t.peExitPrice, t.quantity, t.tradeType)
  {
    var cePnl := t.ceExitPrice - t.ceEntryPrice;
    var pePnl := t.peExitPrice - t.peEntryPrice;
    if t.tradeType == Sell then (-cePnl - pePnl) * t.quantity as real
    else (cePnl + pePnl) * t.quantity as real
  }

  /** One and a half times a price: the multiple the stop-loss is set at. */
  function SlMultiple(price: real): real
  {
    price * 1.5
  }

  /** `calculateSl`: the stop-loss is one and a half times the entry price; a
      non-positive entry has none. */
  function Sl(entry: real): (r: real)
    ensures r >= 0.0
    ensures entry <= 0.0 ==> r == 0.0
    ensures entry > 0.0 ==> r == entry * 1.5 && r > entry
  {
    if entry <= 0.0 then 0.0 else SlMultiple(entry)
  }

  const WeekdayNames: seq<string> :=
    ["Sunday", "Monday", "Tuesday", "Wednesday", "Thursday", "Friday", "Saturday"]

  /** `getTradeDay`: the English weekday name of an ISO date read in UTC, ""
      for an empty date, and "Invalid Date" for text that is not a date. */
  function TradeDay(tradeDate: string): (r: string)
    ensures tradeDate == "" <==> r == ""
    ensures r != "" ==> r == "Invalid Date" || r in WeekdayNames
  {
    if tradeDate == "" then ""
    else
      match ParseIsoDate(tradeDate)
      case None => "Invalid Date"
      case Some(c) => WeekdayNames[Weekday(DayOf(c))]
  }

  // ---------------------------------------------------------------------------
  // Properties of the calculators

  /** Changing the direction of a trade negates each leg's P/L. */
  lemma FlipNegatesLeg(entry: real, exit: real, quantity: int)
    ensures LegPnl(entry, exit, quantity, Buy) == -LegPnl(entry, exit, quantity, Sell)
  {
  }

  function Flipped(t: Trade): Trade
  {
    t.(tradeType := if t.tradeType == Buy then Sell else Buy)
  }

  /** Changing the direction of a trade negates its total P/L. */
  lemma FlipNegatesPnl(t: Trade)
    ensures Pnl(Flipped(t)) == -Pnl(t)
  {
    FlipNegatesLeg(t.ceEntryPrice, t.ceExitPrice, t.quantity);
    FlipNegatesLeg(t.peEntryPrice, t.peExitPrice, t.quantity);
  }

  /** P/L scales with the quantity: it is the P/L of one unit times the
      quantity, and nothing when the quantity is zero. */
  lemma PnlLinear(t: Trade)
    ensures Pnl(t) == Pnl(t.(quantity := 1)) * t.quantity as real
    ensures t.quantity == 0 ==> Pnl(t) == 0.0
  {
  }

  /** A short trade closed below its entry prices on both legs is a winner. */
  lemma ShortWinner(t: Trade)
    requires t.tradeType == Sell && t.quantity > 0
    requires t.ceExitPrice < t.ceEntryPrice && t.peExitPrice < t.peEntryPrice
    ensures Pnl(t) > 0.0
  {
    assert (t.ceEntryPrice - t.ceExitPrice) * t.quantity as real > 0.0;
    assert (t.peEntryPrice - t.peExitPrice) * t.quantity as real > 0.0;
  }

  /** The weekday name of a stored date is that of its day number. */
  lemma TradeDayOfKey(c: Civil)
    requires ValidCivil(c) && 1000 <= c.year <= 9999
    ensures TradeDay(DateKey(c)) == WeekdayNames[Weekday(DayOf(c))]
  {
    ParseDateKey(c);
  }

  /** Consecutive dates give consecutive weekday names, Saturday wrapping to Sunday. */
  lemma TradeDayNext(a: Civil, b: Civil)
    requires ValidCivil(a) && 1000 <= a.year <= 9999
    requires ValidCivil(b) && 1000 <= b.year <= 9999
    requires DayOf(b) == DayOf(a) + 1
    ensures TradeDay(DateKey(b)) == WeekdayNames[(Weekday(DayOf(a)) + 1) % 7]
  {
    var da := DayOf(a);
    TradeDayOfKey(b);
    WeekdayNext(da);
    assert Weekday(DayOf(b)) == (Weekday(da) + 1) % 7;
  }
}
