/** The journal's top-level state (App.tsx): the list of trades, changed
    optimistically and rolled back when the backend call fails, and the list
    narrowed to the header's date filter. */
module App {
  import opened Types
  import opened Seqs
  import opened Gregorian
  import opened DateText
  import opened DateUtils

  const LoadError: string :=
    "Could not load trade data. Please check your setup and ensure the Google Apps Script URL is correct."

  predicate UniqueIds(trades: seq<Trade>)
  {
    forall i, j :: 0 <= i < j < |trades| ==> trades[i].id != trades[j].id
  }

  predicate HasId(trades: seq<Trade>, id: int)
  {
    exists i :: 0 <= i < |trades| && trades[i].id == id
  }

  /** `[...prevTrades, newTrade]` */
  function Appended(trades: seq<Trade>, newTrade: Trade): (r: seq<Trade>)
    ensures |r| == |trades| + 1 && r[..|trades|] == trades && r[|trades|] == newTrade
  {
    trades + [newTrade]
  }

  function Replace(updated: Trade): Trade -> Trade
  {
    (t: Trade) => if t.id == updated.id then updated else t
  }

  /** `prevTrades.map(trade => trade.id === updated.id ? updated : trade)` */
  function Updated(trades: seq<Trade>, updated: Trade): (r: seq<Trade>)
    ensures |r| == |trades|
    ensures forall i :: 0 <= i < |trades| ==>
      r[i] == (if trades[i].id == updated.id then updated else trades[i])
  {
    Map(trades, Replace(updated))
  }

  function KeepOthers(id: int): Trade -> bool
  {
    (t: Trade) => t.id != id
  }

  /** `prevTrades.filter(trade => trade.id !== id)` */
  function Deleted(trades: seq<Trade>, id: int): (r: seq<Trade>)
    ensures forall t :: t in r <==> t in trades && t.id != id
    ensures !HasId(r, id)
  {
    FilterMembers(trades, KeepOthers(id));
    Filter(trades, KeepOthers(id))
  }

  /** The trade's `new Date(trade.tradeDate)` as a time value: UTC midnight of
      a `YYYY-MM-DD` date, or nothing (an invalid date) otherwise. */
  function TradeTime(t: Trade): Option<int>
  {
    match ParseIsoDate(t.tradeDate)
    case Some(c) => Some(TimeValue(DayOf(c), 0))
    case None => None
  }

  /** `tradeDate >= start && tradeDate <= end`; an invalid date compares false. */
  function WithinRange(range: Range): (keep: Trade -> bool)
    ensures forall t: Trade :: ParseIsoDate(t.tradeDate).None? ==> !keep(t)
    ensures forall t: Trade :: ParseIsoDate(t.tradeDate).Some? ==>
      (keep(t) <==> range.start <= DayOf(ParseIsoDate(t.tradeDate).value) * MsPerDay <= range.end)
  {
    (t: Trade) => TradeTime(t).Some? && InRange(range, TradeTime(t).value)
  }

  class TradeJournal {
    var trades: seq<Trade>
    var loading: bool
    var error: Option<string>
    var modalOpen: bool
    var activeFilter: DateFilter
    var editingTrade: Option<Trade>

    /** The initial state: no trades, loading, no error, the entry form
        closed, the filter on 'all'. */
    constructor ()
      ensures trades == [] && loading && error == None
      ensures !modalOpen && activeFilter == All && editingTrade == None
    {
      trades, loading, error := [], true, None;
      modalOpen, activeFilter, editingTrade := false, All, None;
    }

    /** `handleEditTrade`: opens the entry form on an existing trade. */
    method EditTrade(t: Trade)
      modifies this`editingTrade, this`modalOpen
      ensures editingTrade == Some(t) && modalOpen
      ensures trades == old(trades) && activeFilter == old(activeFilter)
    {
      editingTrade := Some(t);
      modalOpen := true;
    }

    /** The sidebar's new-trade button: opens the form with nothing to edit. */
    method NewTradeClick()
      modifies this`modalOpen
      ensures modalOpen && editingTrade == old(editingTrade)
      ensures trades == old(trades) && activeFilter == old(activeFilter)
    {
      modalOpen := true;
    }

    /** `handleCloseModal`. */
    method CloseModal()
      modifies this`modalOpen, this`editingTrade
      ensures !modalOpen && editingTrade == None
      ensures trades == old(trades) && activeFilter == old(activeFilter)
    {
      modalOpen := false;
      editingTrade := None;
    }

    /** The header's filter buttons. */
    method SetFilter(filter: DateFilter)
      modifies this`activeFilter
      ensures activeFilter == filter && trades == old(trades)
    {
      activeFilter := filter;
    }

    /** The initial `getTrades()`: `fetched` is the list it resolves with, or
        nothing when it rejects. */
    method InitialLoad(fetched: Option<seq<Trade>>)
      modifies this`trades, this`loading, this`error
      ensures !loading
      ensures fetched.Some? ==> trades == fetched.value && error == old(error)
      ensures fetched.None? ==> trades == old(trades) && error == Some(LoadError)
    {
      match fetched
      case Some(list) =>
        trades := list;
        loading := false;
      case None =>
        error := Some(LoadError);
        loading := false;
    }

    /** `addTrade`: the draft gets the id `Date.now()` (passed in as `now`), is
        appended at once, and the list is put back when the backend call
        (`remoteOk` false) fails. */
    method AddTrade(draft: TradeDraft, now: int, remoteOk: bool)
      modifies this`trades
      ensures remoteOk ==> trades == Appended(old(trades), WithId(draft, now))
      ensures !remoteOk ==> trades == old(trades)
      ensures loading == old(loading) && error == old(error)
    {
      var newTrade := WithId(draft, now);
      var originalTrades := trades;
      trades := Appended(trades, newTrade);
      if !remoteOk {
        trades := originalTrades;
      }
    }

    /** `updateTrade`: replaces the trades carrying the edited trade's id, and
        puts the list back when the backend call fails. */
    method UpdateTrade(updated: Trade, remoteOk: bool)
      modifies this`trades
      ensures remoteOk ==> trades == Updated(old(trades), updated)
      ensures !remoteOk ==> trades == old(trades)
      ensures loading == old(loading) && error == old(error)
    {
      var originalTrades := trades;
      trades := Updated(trades, updated);
      if !remoteOk {
        trades := originalTrades;
      }
    }

    /** `deleteTrade`: drops every trade with the id, and puts the list back
        when the backend call fails. */
    method DeleteTrade(id: int, remoteOk: bool)
      modifies this`trades
      ensures remoteOk ==> trades == Deleted(old(trades), id)
      ensures !remoteOk ==> trades == old(trades)
      ensures loading == old(loading) && error == old(error)
    {
      var originalTrades := trades;
      trades := Deleted(trades, id);
      if !remoteOk {
        trades := originalTrades;
      }
    }

    /** The `filteredTrades` memo, with the clock passed in: everything for
        'all', otherwise the trades whose date falls in the filter's range, in
        their original order. */
    method FilteredTrades(nowDate: Civil, nowMs: int) returns (r: seq<Trade>)
      requires ValidCivil(nowDate) && 0 <= nowMs < MsPerDay
      ensures activeFilter == All ==> r == trades
      ensures activeFilter != All ==> r == Filter(trades, WithinRange(DateRange(activeFilter, nowDate).value))
    {
      var filter := activeFilter;
      if filter == All {
        return trades;
      }
      var range := GetDateRange(filter, nowDate, nowMs);
      if range.None? {
        return trades;
      }
      r := Filter(trades, WithinRange(range.value));
    }
  }

  // ---------------------------------------------------------------------------
  // Properties of the mutations and of the filter

  /** Adding a trade with a fresh id keeps the ids unique. */
  lemma AddKeepsIdsUnique(trades: seq<Trade>, newTrade: Trade)
    requires UniqueIds(trades) && !HasId(trades, newTrade.id)
    ensures UniqueIds(Appended(trades, newTrade))
  {
    var r := Appended(trades, newTrade);
    forall i, j | 0 <= i < j < |r| ensures r[i].id != r[j].id {
      if j == |trades| {
        assert r[i] == trades[i];
      } else {
        assert r[i] == trades[i] && r[j] == trades[j];
      }
    }
  }

  /** Deleting a just-added trade whose id was fresh gives the list back. */
  lemma DeleteUndoesAdd(trades: seq<Trade>, newTrade: Trade)
    requires !HasId(trades, newTrade.id)
    ensures Deleted(Appended(trades, newTrade), newTrade.id) == trades
  {
    FilterStep(trades, newTrade, KeepOthers(newTrade.id));
    DeleteMissingIsNoOp(trades, newTrade.id);
  }

  /** With unique ids, updating the trade at `i` and then updating with the
      trade it replaced gives the list back. */
  lemma UpdateUndoesUpdate(trades: seq<Trade>, i: int, edited: Trade)
    requires UniqueIds(trades) && 0 <= i < |trades| && edited.id == trades[i].id
    ensures Updated(Updated(trades, edited), trades[i]) == trades
  {
    var once := Updated(trades, edited);
    var twice := Updated(once, trades[i]);
    forall j | 0 <= j < |trades| ensures twice[j] == trades[j] {
      if j != i {
        assert trades[j].id != trades[i].id;
      }
    }
  }

  /** Updating with an id no trade carries changes nothing. */
  lemma UpdateMissingIsNoOp(trades: seq<Trade>, updated: Trade)
    requires !HasId(trades, updated.id)
    ensures Updated(trades, updated) == trades
  {
    var r := Updated(trades, updated);
    forall i | 0 <= i < |trades| ensures r[i] == trades[i] {
      assert trades[i].id != updated.id;
    }
  }

  /** Updating never changes the ids, so unique ids stay unique. */
  lemma UpdateKeepsIds(trades: seq<Trade>, updated: Trade)
    ensures forall i :: 0 <= i < |trades| ==> Updated(trades, updated)[i].id == trades[i].id
    ensures UniqueIds(trades) ==> UniqueIds(Updated(trades, updated))
  {
  }

  /** Deleting keeps each other trade as often as before and drops every trade with the id. */
  lemma DeleteKeepsOthers(trades: seq<Trade>, id: int, t: Trade)
    ensures multiset(Deleted(trades, id))[t] == if t.id != id then multiset(trades)[t] else 0
  {
    FilterMultiset(trades, KeepOthers(id), t);
  }

  /** Deleting an id nobody carries changes nothing. */
  lemma DeleteMissingIsNoOp(trades: seq<Trade>, id: int)
    requires !HasId(trades, id)
    ensures Deleted(trades, id) == trades
  {
    FilterAll(trades, KeepOthers(id));
  }

  /** A trade with a valid `YYYY-MM-DD` date survives a filter other than 'all'
      exactly when its date is covered by the filter's period. */
  lemma FilteredByPeriod(trades: seq<Trade>, filter: DateFilter, now: Civil, t: Trade, c: Civil)
    requires filter != All && t in trades && ParseIsoDate(t.tradeDate) == Some(c)
    ensures t in Filter(trades, WithinRange(DateRange(filter, now).value)) <==> Covers(filter, now, c)
  {
  }

  /** A trade whose date is not a valid date is dropped by every filter but 'all'. */
  lemma InvalidDateFilteredOut(trades: seq<Trade>, filter: DateFilter, now: Civil, t: Trade)
    requires filter != All && ParseIsoDate(t.tradeDate).None?
    ensures t !in Filter(trades, WithinRange(DateRange(filter, now).value))
  {
  }
}
