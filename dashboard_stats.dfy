/** The dashboard's summary cards (DashboardStats.tsx). */
module DashboardStats {
  import opened Types
  import opened Seqs
  import opened Text
  import opened TradeUtils
  import opened Metrics
  import StatsPage

  datatype Summary = Summary(
    totalPl: real,
    winRate: real,
    avgWin: real,
    avgLoss: real,
    profitFactor: ProfitFactor)

  /** The `stats` memo: win rate in percent, gross figures and their averages.
      The total P/L is the sum of every trade's P/L, which is the winners'
      total less the losers' total magnitude. */
  function DashboardSummary(trades: seq<Trade>): (r: Summary)
    ensures r.totalPl == Sum(Map(trades, Pnl))
    ensures r.totalPl
      == Sum(Filter(Map(trades, Pnl), IsGain)) - Abs(Sum(Filter(Map(trades, Pnl), IsLoss)))
  {
    if |trades| == 0 then
      assert Map(trades, Pnl) == [];
      Summary(0.0, 0.0, 0.0, 0.0, Finite(0.0))
    else
      var tradeResults := Map(trades, Pnl);
      SumSigns(tradeResults);
      SumNegative(Filter(tradeResults, IsLoss));
      var totalPl := Sum(tradeResults);
      var winningTrades := Filter(tradeResults, IsGain);
      var losingTrades := Filter(tradeResults, IsLoss);
      var winRate := (|winningTrades| as real / |trades| as real) * 100.0;
      var totalWinAmount := Sum(winningTrades);
      var totalLossAmount := Abs(Sum(losingTrades));
      Summary(totalPl, winRate,
              Average(totalWinAmount, |winningTrades|), Average(totalLossAmount, |losingTrades|),
              ProfitFactorOf(totalWinAmount, totalLossAmount))
  }

  // ---------------------------------------------------------------------------
  // Properties of the summary

  /** An empty book shows zero on every card, profit factor included. */
  lemma SummaryEmpty()
    ensures DashboardSummary([]) == Summary(0.0, 0.0, 0.0, 0.0, Finite(0.0))
  {
  }

  /** The win rate is the winners' share of the trades in percent, between 0 and 100. */
  lemma WinRateBounds(trades: seq<Trade>)
    ensures 0.0 <= DashboardSummary(trades).winRate <= 100.0
    ensures trades != [] ==>
      DashboardSummary(trades).winRate
      == 100.0 * (|Filter(Map(trades, Pnl), IsGain)| as real / |trades| as real)
  {
    if trades != [] {
      var w := |Filter(Map(trades, Pnl), IsGain)| as real;
      var n := |trades| as real;
      assert w <= n;
      assert DashboardSummary(trades).winRate == (w / n) * 100.0;
      Ratio(w, n);
    }
  }

  lemma Ratio(w: real, n: real)
    requires 0.0 <= w <= n && n > 0.0
    ensures 0.0 <= (w / n) * 100.0 <= 100.0
  {
    assert w / n <= 1.0;
  }

  /** With no winners the average win is 0, with no losers the average loss is 0. */
  lemma AveragesWithoutTrades(trades: seq<Trade>)
    ensures Filter(Map(trades, Pnl), IsGain) == [] ==> DashboardSummary(trades).avgWin == 0.0
    ensures Filter(Map(trades, Pnl), IsLoss) == [] ==> DashboardSummary(trades).avgLoss == 0.0
  {
  }

  /** On a non-empty book the profit factor is infinite exactly when no trade lost money. */
  lemma ProfitFactorInfinite(trades: seq<Trade>)
    requires trades != []
    ensures DashboardSummary(trades).profitFactor.Infinite? <==> forall t :: t in trades ==> Pnl(t) >= 0.0
  {
    StatsPage.ProfitFactorInfinite(trades);
    AgreesWithStatsPage(trades);
  }

  /** The dashboard and the statistics page agree on average win, average loss
      and profit factor. */
  lemma AgreesWithStatsPage(trades: seq<Trade>)
    ensures DashboardSummary(trades).avgWin == StatsPage.Stats(trades).avgWin
    ensures DashboardSummary(trades).avgLoss == StatsPage.Stats(trades).avgLoss
    ensures DashboardSummary(trades).profitFactor == StatsPage.Stats(trades).profitFactor
  {
  }
}
