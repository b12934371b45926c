/** The two guarded divisions both statistics panels perform. */
module Metrics {
  import opened Types

  /** `count > 0 ? total / count : 0` */
  function Average(total: real, count: nat): (r: real)
    ensures count == 0 ==> r == 0.0
    ensures total >= 0.0 ==> r >= 0.0
  {
    if count > 0 then total / count as real else 0.0
  }

  /** `loss > 0 ? profit / loss : Infinity` */
  function ProfitFactorOf(profit: real, loss: real): (r: ProfitFactor)
    ensures r.Infinite? <==> loss <= 0.0
    ensures profit >= 0.0 && r.Finite? ==> r.value >= 0.0
  {
    if loss > 0.0 then Finite(profit / loss) else Infinite
  }

  /** An average times its count gives back the total. */
  lemma AverageTimesCount(total: real, count: nat)
    requires count > 0
    ensures Average(total, count) * count as real == total
  {
  }

  /** A finite profit factor times the loss gives back the profit. */
  lemma ProfitFactorTimesLoss(profit: real, loss: real)
    requires loss > 0.0
    ensures ProfitFactorOf(profit, loss) == Finite(profit / loss)
    ensures ProfitFactorOf(profit, loss).value * loss == profit
  {
  }
}
