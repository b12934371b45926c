/** The journal's data types (types.ts). */
module Types {

  datatype Option<T> = None | Some(value: T) {
    function GetOr(default: T): T {
      match this
      case Some(v) => v
      case None => default
    }
  }

  /** `OptionsTradeType`: one direction for both legs of a trade. */
  datatype TradeType = Buy | Sell

  /** A two-legged options trade. Prices are exact reals; `notes` may be absent. */
  datatype Trade = Trade(
    id: int,
    tradeDate: string,
    strike: int,
    tradeType: TradeType,
    quantity: int,
    ceEntryPrice: real,
    ceExitPrice: real,
    peEntryPrice: real,
    peExitPrice: real,
    ceEntryTime: string,
    ceExitTime: string,
    peEntryTime: string,
    peExitTime: string,
    notes: Option<string>)

  /** `Omit<Trade, 'id'>`: what the entry form hands to the journal before an id is assigned. */
  datatype TradeDraft = TradeDraft(
    tradeDate: string,
    strike: int,
    tradeType: TradeType,
    quantity: int,
    ceEntryPrice: real,
    ceExitPrice: real,
    peEntryPrice: real,
    peExitPrice: real,
    ceEntryTime: string,
    ceExitTime: string,
    peEntryTime: string,
    peExitTime: string,
    notes: Option<string>)

  /** `{ ...draft, id }` */
  function WithId(d: TradeDraft, id: int): (t: Trade)
  {
    Trade(id, d.tradeDate, d.strike, d.tradeType, d.quantity,
          d.ceEntryPrice, d.ceExitPrice, d.peEntryPrice, d.peExitPrice,
          d.ceEntryTime, d.ceExitTime, d.peEntryTime, d.peExitTime, d.notes)
  }

  /** The trade's fields without its id. */
  function DraftOf(t: Trade): TradeDraft
  {
    TradeDraft(t.tradeDate, t.strike, t.tradeType, t.quantity,
               t.ceEntryPrice, t.ceExitPrice, t.peEntryPrice, t.peExitPrice,
               t.ceEntryTime, t.ceExitTime, t.peEntryTime, t.peExitTime, t.notes)
  }

  /** A profit factor: gross profit over gross loss, or JavaScript's `Infinity`
      when there is no loss to divide by. */
  datatype ProfitFactor = Finite(value: real) | Infinite

  /** The named periods of the header's date filter. */
  datatype DateFilter =
    | Today | Yesterday | ThisWeek | LastWeek | ThisMonth | LastMonth
    | LastThreeMonths | ThisYear | LastYear | All
}
