/** The statistics page's aggregate figures (StatsPage.tsx). */
module StatsPage {
  import opened Types
  import opened Seqs
  import opened Text
  import opened TradeUtils
  import opened Metrics

  datatype TradeStats = TradeStats(
    totalTrades: nat,
    buyTrades: nat,
    sellTrades: nat,
    bestTradePnl: real,
    worstTradePnl: real,
    totalProfit: real,
    totalLoss: real,
    avgWin: real,
    avgLoss: real,
    profitFactor: ProfitFactor)

  predicate IsBuy(t: Trade) { t.tradeType == Buy }
  predicate IsSell(t: Trade) { t.tradeType == Sell }

  /** `Math.max(...pnls, 0)`: the largest P/L, or 0 when every one is below it. */
  function MaxWithZero(s: seq<real>): (m: real)
    ensures m >= 0.0
    ensures forall i :: 0 <= i < |s| ==> s[i] <= m
    ensures m == 0.0 || m in s
    decreases |s|
  {
    if s == [] then 0.0
    else
      var m := MaxWithZero(s[..|s| - 1]);
      if s[|s| - 1] > m then s[|s| - 1] else m
  }

  /** `Math.min(...pnls, 0)`: the smallest P/L, or 0 when every one is above it. */
  function MinWithZero(s: seq<real>): (m: real)
    ensures m <= 0.0
    ensures forall i :: 0 <= i < |s| ==> m <= s[i]
    ensures m == 0.0 || m in s
    decreases |s|
  {
    if s == [] then 0.0
    else
      var m := MinWithZero(s[..|s| - 1]);
      if s[|s| - 1] < m then s[|s| - 1] else m
  }

  /** The `tradeStats` memo. */
  function Stats(trades: seq<Trade>): (r: TradeStats)
    ensures r.totalTrades == |trades|
    ensures r.worstTradePnl <= 0.0 <= r.bestTradePnl
  {
    if |trades| == 0 then
      TradeStats(0, 0, 0, 0.0, 0.0, 0.0, 0.0, 0.0, 0.0, Finite(0.0))
    else
      var buyTrades := |Filter(trades, IsBuy)|;
      var sellTrades := |Filter(trades, IsSell)|;
      var tradePnls := Map(trades, Pnl);
      var winningTrades := Filter(tradePnls, IsGain);
      var losingTrades := Filter(tradePnls, IsLoss);
      var totalProfit := Sum(winningTrades);
      var totalLoss := Abs(Sum(losingTrades));
      TradeStats(|trades|, buyTrades, sellTrades, MaxWithZero(tradePnls), MinWithZero(tradePnls),
                 totalProfit, totalLoss,
                 Average(totalProfit, |winningTrades|), Average(totalLoss, |losingTrades|),
                 ProfitFactorOf(totalProfit, totalLoss))
  }

  /** How the page shows the profit factor: `∞` for `Infinity`, otherwise the
      number with two decimals (the formatting itself is not modelled). */
  datatype Shown = Symbol(text: string) | TwoDecimals(value: real)

  function ProfitFactorShown(pf: ProfitFactor): (r: Shown)
    ensures r == Symbol("∞") <==> pf.Infinite?
    ensures pf.Finite? ==> r == TwoDecimals(pf.value)
  {
    match pf
    case Infinite => Symbol("∞")
    case Finite(v) => TwoDecimals(v)
  }

  // ---------------------------------------------------------------------------
  // Properties of the statistics

  /** An empty book shows zero everywhere, profit factor included (not infinity). */
  lemma StatsEmpty()
    ensures Stats([]) == TradeStats(0, 0, 0, 0.0, 0.0, 0.0, 0.0, 0.0, 0.0, Finite(0.0))
  {
  }

  /** Every trade is either a buy or a sell. */
  lemma BuySellPartition(trades: seq<Trade>)
    ensures Stats(trades).buyTrades + Stats(trades).sellTrades == Stats(trades).totalTrades == |trades|
  {
    if trades != [] {
      FilterComplement(trades, IsBuy, IsSell);
    }
  }

  /** The best trade P/L is at least 0 and at least every trade's P/L, and is
      some trade's P/L unless it is 0; symmetrically for the worst. */
  lemma BestWorstBounds(trades: seq<Trade>)
    ensures var s := Stats(trades);
      s.worstTradePnl <= 0.0 <= s.bestTradePnl
      && (forall t :: t in trades ==> s.worstTradePnl <= Pnl(t) <= s.bestTradePnl)
      && (s.bestTradePnl == 0.0 || exists t :: t in trades && Pnl(t) == s.bestTradePnl)
      && (s.worstTradePnl == 0.0 || exists t :: t in trades && Pnl(t) == s.worstTradePnl)
  {
    if trades != [] {
      var pnls := Map(trades, Pnl);
      forall t | t in trades
        ensures MinWithZero(pnls) <= Pnl(t) <= MaxWithZero(pnls)
      {
        var i :| 0 <= i < |trades| && trades[i] == t;
        assert pnls[i] == Pnl(t);
      }
      var best := MaxWithZero(pnls);
      if best != 0.0 {
        var i :| 0 <= i < |pnls| && pnls[i] == best;
        assert trades[i] in trades && Pnl(trades[i]) == best;
      }
      var worst := MinWithZero(pnls);
      if worst != 0.0 {
        var i :| 0 <= i < |pnls| && pnls[i] == worst;
        assert trades[i] in trades && Pnl(trades[i]) == worst;
      }
    }
  }

  /** Gross profit is the sum of the winners' P/L and gross loss the magnitude
      of the losers' sum; both are non-negative. */
  lemma Totals(trades: seq<Trade>)
    ensures var s := Stats(trades);
      s.totalProfit >= 0.0 && s.totalLoss >= 0.0
      && s.totalProfit == Sum(Filter(Map(trades, Pnl), IsGain))
      && s.totalLoss == -Sum(Filter(Map(trades, Pnl), IsLoss))
  {
    var pnls := Map(trades, Pnl);
    var wins := Filter(pnls, IsGain);
    var losses := Filter(pnls, IsLoss);
    SumPositive(wins);
    SumNegative(losses);
    if trades == [] {
      assert pnls == [] && wins == [] && losses == [];
    }
  }

  /** Each average is 0 without trades of its kind and otherwise the total
      over the number of such trades; neither is negative. */
  lemma Averages(trades: seq<Trade>)
    ensures Stats(trades).avgWin >= 0.0 && Stats(trades).avgLoss >= 0.0
    ensures Stats(trades).avgWin
      == Average(Stats(trades).totalProfit, |Filter(Map(trades, Pnl), IsGain)|)
    ensures Stats(trades).avgLoss
      == Average(Stats(trades).totalLoss, |Filter(Map(trades, Pnl), IsLoss)|)
  {
    Totals(trades);
    if trades == [] {
      assert Map(trades, Pnl) == [];
    }
  }

  /** Winners have a positive P/L and losers a negative one, so a break-even
      trade is counted in neither. */
  lemma WinnersAndLosers(trades: seq<Trade>, t: Trade)
    requires t in trades
    ensures Pnl(t) in Filter(Map(trades, Pnl), IsGain) <==> Pnl(t) > 0.0
    ensures Pnl(t) in Filter(Map(trades, Pnl), IsLoss) <==> Pnl(t) < 0.0
    ensures Pnl(t) == 0.0 ==> Pnl(t) !in Filter(Map(trades, Pnl), IsGain) + Filter(Map(trades, Pnl), IsLoss)
  {
    var i :| 0 <= i < |trades| && trades[i] == t;
    assert Map(trades, Pnl)[i] == Pnl(t);
    FilterMember(Map(trades, Pnl), IsGain, Pnl(t));
    FilterMember(Map(trades, Pnl), IsLoss, Pnl(t));
  }

  /** On a non-empty book the profit factor is infinite exactly when no trade
      lost money (a book of break-even trades included); otherwise it is gross
      profit over gross loss. */
  lemma ProfitFactorInfinite(trades: seq<Trade>)
    requires trades != []
    ensures Stats(trades).profitFactor.Infinite? <==> forall t :: t in trades ==> Pnl(t) >= 0.0
    ensures Stats(trades).profitFactor.Finite? ==>
      Stats(trades).totalLoss > 0.0
      && Stats(trades).profitFactor == Finite(Stats(trades).totalProfit / Stats(trades).totalLoss)
  {
    var pnls := Map(trades, Pnl);
    var losses := Filter(pnls, IsLoss);
    Totals(trades);
    SumNegative(losses);
    FilterMembers(pnls, IsLoss);
    if !(forall t :: t in trades ==> Pnl(t) >= 0.0) {
      var t :| t in trades && Pnl(t) < 0.0;
      WinnersAndLosers(trades, t);
    }
  }
}
