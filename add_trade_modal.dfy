/** The entry form of the add/edit trade dialog (AddTradeModal.tsx): thirteen
    text fields and a trade type, filled from today's defaults or from the trade
    being edited, the live previews shown beside them, and the reading of the
    fields into a trade when the user saves. */
module AddTradeModal {
  import opened Types
  import opened Text
  import opened Gregorian
  import opened DateText
  import opened TradeUtils
  import opened TradeChart

  /** What the form's fields hold at one moment: every input as the text typed. */
  datatype FormState = FormState(
    tradeDate: string,
    strike: string,
    tradeType: TradeType,
    quantity: string,
    ceEntryPrice: string,
    ceExitPrice: string,
    peEntryPrice: string,
    peExitPrice: string,
    ceEntryTime: string,
    ceExitTime: string,
    peEntryTime: string,
    peExitTime: string,
    notes: string)

  /** Every field except the notes must be filled in before the form is read. */
  predicate Complete(f: FormState)
  {
    f.tradeDate != "" && f.strike != "" && f.quantity != ""
    && f.ceEntryPrice != "" && f.ceExitPrice != "" && f.peEntryPrice != "" && f.peExitPrice != ""
    && f.ceEntryTime != "" && f.ceExitTime != "" && f.peEntryTime != "" && f.peExitTime != ""
  }

  /** The outcome of `getTradeData`: a missing field (the user is alerted), a
      field whose number cannot be read, or the trade to save. */
  datatype FormResult = Incomplete | NotANumber | Ready(draft: TradeDraft)

  /** `getTradeData`: with every required field filled, the strike and quantity
      are read by `parseInt`, the prices by `parseFloat`, and the text fields and
      the notes (possibly empty) are taken as they stand. */
  function ReadForm(f: FormState): (r: FormResult)
    ensures r == Incomplete <==> !Complete(f)
    ensures r.Ready? ==>
      LeadingInt(f.strike) == Some(r.draft.strike) && LeadingInt(f.quantity) == Some(r.draft.quantity)
      && ParseDecimal(f.ceEntryPrice) == Some(r.draft.ceEntryPrice)
      && ParseDecimal(f.ceExitPrice) == Some(r.draft.ceExitPrice)
      && ParseDecimal(f.peEntryPrice) == Some(r.draft.peEntryPrice)
      && ParseDecimal(f.peExitPrice) == Some(r.draft.peExitPrice)
  {
    if !Complete(f) then Incomplete
    else
      var strike, quantity := LeadingInt(f.strike), LeadingInt(f.quantity);
      var ceEntry, ceExit := ParseDecimal(f.ceEntryPrice), ParseDecimal(f.ceExitPrice);
      var peEntry, peExit := ParseDecimal(f.peEntryPrice), ParseDecimal(f.peExitPrice);
      if strike.None? || quantity.None? || ceEntry.None? || ceExit.None? || peEntry.None? || peExit.None?
      then NotANumber
      else
        Ready(TradeDraft(f.tradeDate, strike.value, f.tradeType, quantity.value,
                         ceEntry.value, ceExit.value, peEntry.value, peExit.value,
                         f.ceEntryTime, f.ceExitTime, f.peEntryTime, f.peExitTime,
                         Some(f.notes)))
  }

  const DefaultQuantity: string := "375"
  const DefaultEntryTime: string := "09:16:00"
  const DefaultExitTime: string := "14:45:00"

  /** `resetForm`: today's date, a SELL of 375 entered at 09:16:00 and left at
      14:45:00, and everything else empty. */
  function ResetState(today: Civil): FormState
    requires 0 <= today.month < 12 && today.day >= 0
  {
    FormState(DateKey(today), "", Sell, DefaultQuantity, "", "", "", "",
              DefaultEntryTime, DefaultExitTime, DefaultEntryTime, DefaultExitTime, "")
  }

  /** `populateForm`: the trade's fields written as text; absent notes become "". */
  function Populated(t: Trade): FormState
  {
    FormState(t.tradeDate, IntString(t.strike), t.tradeType, IntString(t.quantity),
              NumberString(t.ceEntryPrice), NumberString(t.ceExitPrice),
              NumberString(t.peEntryPrice), NumberString(t.peExitPrice),
              t.ceEntryTime, t.ceExitTime, t.peEntryTime, t.peExitTime,
              t.notes.GetOr(""))
  }

  /** The trade as the journal gets it back after an edit that changed nothing:
      the same fields, with absent notes saved as the empty text. */
  function Resaved(t: Trade): Trade
  {
    t.(notes := Some(t.notes.GetOr("")))
  }

  // ---------------------------------------------------------------------------
  // Live previews

  /** `parseInt(quantity, 10) || 0`: NaN counts as no quantity. */
  function ParsedQuantity(quantity: string): (r: int)
    ensures LeadingInt(quantity).None? ==> r == 0
    ensures r != 0 ==> LeadingInt(quantity) == Some(r)
  {
    LeadingInt(quantity).GetOr(0)
  }

  /** The stop-loss preview of one leg: "0.00" while the entry cannot be read,
      otherwise one and a half times the entry with two decimals. */
  function SlPreview(entryText: string): (r: string)
    ensures ParseDecimal(entryText).None? ==> r == "0.00"
  {
    match ParseDecimal(entryText)
    case None => "0.00"
    case Some(entry) => FixedTwo(SlMultiple(entry))
  }

  /** The P/L preview of one leg: 0 while a price cannot be read or the quantity
      is missing, otherwise the price difference times the quantity, earned when
      the price falls for a SELL and when it rises for a BUY. */
  function LegPreview(entryText: string, exitText: string, quantityText: string, tradeType: TradeType): (r: real)
    ensures ParseDecimal(entryText).None? || ParseDecimal(exitText).None? ==> r == 0.0
    ensures ParsedQuantity(quantityText) == 0 ==> r == 0.0
  {
    match (ParseDecimal(entryText), ParseDecimal(exitText))
    case (Some(entry), Some(exit)) => PreviewPnl(entry, exit, ParsedQuantity(quantityText), tradeType)
    case _ => 0.0
  }

  /** The preview's arithmetic on readable prices: the per-share gain of a SELL
      is the entry minus the exit, and a BUY's is its negation. */
  function PreviewPnl(entry: real, exit: real, quantity: int, tradeType: TradeType): (r: real)
    ensures quantity == 0 || entry == exit ==> r == 0.0
  {
    if quantity == 0 then 0.0
    else
      var perShare := entry - exit;
      if tradeType == Buy then -perShare * quantity as real else perShare * quantity as real
  }

  /** The total P/L preview: the two legs' previews added. */
  function TotalPreview(f: FormState): (r: real)
    ensures ParsedQuantity(f.quantity) == 0 ==> r == 0.0
  {
    LegPreview(f.ceEntryPrice, f.ceExitPrice, f.quantity, f.tradeType)
    + LegPreview(f.peEntryPrice, f.peExitPrice, f.quantity, f.tradeType)
  }

  /** The day-of-month and weekday labels shown for the trade date, read in UTC:
      both empty for an empty date, "NaN" and "Invalid Date" for text that is
      not a date. */
  function DayLabels(tradeDate: string): (labels: (string, string))
    ensures labels.0 == "" <==> tradeDate == ""
    ensures labels.1 == TradeDay(tradeDate)
  {
    if tradeDate == "" then ("", "")
    else
      match ParseIsoDate(tradeDate)
      case None => ("NaN", "Invalid Date")
      case Some(c) => (DecimalString(c.day), WeekdayNames[Weekday(DayOf(c))])
  }

  // ---------------------------------------------------------------------------
  // Saving

  /** What a save hands to the journal: nothing, a new trade, or an edited one. */
  datatype SaveAction = NoSave | AddTrade(draft: TradeDraft) | UpdateTrade(trade: Trade)

  /** `handleSave`: a readable form is sent as an update carrying the edited
      trade's id while editing, and as a new trade otherwise. */
  function SaveActionOf(r: FormResult, tradeToEdit: Option<Trade>): SaveAction
  {
    match r
    case Ready(d) =>
      if tradeToEdit.Some? then UpdateTrade(WithId(d, tradeToEdit.value.id)) else AddTrade(d)
    case _ => NoSave
  }

  /** The inputs of one leg's section of the dialog (CE or PE). */
  datatype LegInputs = LegInputs(entryPrice: string, exitPrice: string, entryTime: string, exitTime: string)

  /** The dialog's form. Its fields are the React state variables of the same
      names (`type` is called `tradeType` here), with the four inputs of each
      leg's section kept together. */
  class TradeForm {
    var tradeDate: string
    var strike: string
    var tradeType: TradeType
    var quantity: string
    var ce: LegInputs
    var pe: LegInputs
    var notes: string

    function State(): FormState
      reads this
    {
      FormState(tradeDate, strike, tradeType, quantity,
                ce.entryPrice, ce.exitPrice, pe.entryPrice, pe.exitPrice,
                ce.entryTime, ce.exitTime, pe.entryTime, pe.exitTime, notes)
    }

    /** Sets every field to the given form state. */
    method SetState(f: FormState)
      modifies this
      ensures State() == f
    {
      tradeDate, strike, tradeType, quantity := f.tradeDate, f.strike, f.tradeType, f.quantity;
      ce := LegInputs(f.ceEntryPrice, f.ceExitPrice, f.ceEntryTime, f.ceExitTime);
      pe := LegInputs(f.peEntryPrice, f.peExitPrice, f.peEntryTime, f.peExitTime);
      notes := f.notes;
    }

    /** Every field starts empty and the type starts as SELL. */
    constructor()
      ensures State() == FormState("", "", Sell, "", "", "", "", "", "", "", "", "", "")
    {
      tradeDate, strike, tradeType, quantity := "", "", Sell, "";
      ce, pe := LegInputs("", "", "", ""), LegInputs("", "", "", "");
      notes := "";
    }

    /** `resetForm`, given today's local date. */
    method ResetForm(today: Civil)
      requires 0 <= today.month < 12 && today.day >= 0
      modifies this
      ensures State() == ResetState(today)
    {
      SetState(ResetState(today));
    }

    /** `populateForm`. */
    method PopulateForm(t: Trade)
      modifies this
      ensures State() == Populated(t)
    {
      SetState(Populated(t));
    }

    /** The effect run when the dialog opens or the trade to edit changes: the
        edited trade fills the form, otherwise the defaults do; a closed dialog
        leaves the form alone. */
    method Open(isOpen: bool, tradeToEdit: Option<Trade>, today: Civil)
      requires 0 <= today.month < 12 && today.day >= 0
      modifies this
      ensures !isOpen ==> State() == old(State())
      ensures isOpen && tradeToEdit.Some? ==> State() == Populated(tradeToEdit.value)
      ensures isOpen && tradeToEdit.None? ==> State() == ResetState(today)
    {
      if isOpen {
        if tradeToEdit.Some? {
          PopulateForm(tradeToEdit.value);
        } else {
          ResetForm(today);
        }
      }
    }

    /** `handleSave`: reads the form, sends the trade on, and closes the dialog
        when the form was readable; otherwise nothing is sent and the dialog
        stays open. */
    method HandleSave(tradeToEdit: Option<Trade>) returns (action: SaveAction, close: bool)
      ensures action == SaveActionOf(ReadForm(State()), tradeToEdit)
      ensures close <==> ReadForm(State()).Ready?
    {
      var data := ReadForm(State());
      action := SaveActionOf(data, tradeToEdit);
      close := data.Ready?;
    }

    /** `handleSaveAndNew` (offered only while adding): a readable form is sent
        as a new trade and the form is reset for the next one; otherwise nothing
        is sent and the form is kept. */
    method HandleSaveAndNew(today: Civil) returns (action: SaveAction)
      requires 0 <= today.month < 12 && today.day >= 0
      modifies this
      ensures old(ReadForm(State())).Ready? ==>
        action == AddTrade(old(ReadForm(State())).draft) && State() == ResetState(today)
      ensures !old(ReadForm(State())).Ready? ==> action == NoSave && State() == old(State())
    {
      var data := ReadForm(State());
      if data.Ready? {
        action := AddTrade(data.draft);
        ResetForm(today);
      } else {
        action := NoSave;
      }
    }
  }

  // ---------------------------------------------------------------------------
  // Properties of the form

  /** A freshly reset form cannot be saved: the strike and the prices are still
      empty. */
  lemma ResetNeedsInput(today: Civil)
    requires 0 <= today.month < 12 && today.day >= 0
    ensures ReadForm(ResetState(today)) == Incomplete
  {
  }

  /** The default times of a reset form are a valid entry before a valid exit. */
  lemma DefaultTimesOrdered()
    ensures ParseTime(DefaultEntryTime).Some? && ParseTime(DefaultExitTime).Some?
    ensures ParseTime(DefaultEntryTime).value < ParseTime(DefaultExitTime).value
  {
    assert TimeText(9, 16, 0) == DefaultEntryTime;
    assert TimeText(14, 45, 0) == DefaultExitTime;
    ParseTimeText(9, 16, 0);
    ParseTimeText(14, 45, 0);
  }

  /** The reset form's date is today and its labels name today's day and weekday. */
  lemma ResetShowsToday(today: Civil)
    requires ValidCivil(today) && 1000 <= today.year <= 9999
    ensures ParseIsoDate(ResetState(today).tradeDate) == Some(today)
    ensures DayLabels(ResetState(today).tradeDate)
      == (DecimalString(today.day), TradeDay(DateKey(today)))
  {
    ParseDateKey(today);
  }

  /** A reset form previews a quantity of 375, no stop-loss ("0.00" on both
      legs) and a total of 0, since its prices are empty. */
  lemma ResetPreviews(today: Civil)
    requires 0 <= today.month < 12 && today.day >= 0
    ensures var f := ResetState(today);
      ParsedQuantity(f.quantity) == 375
      && SlPreview(f.ceEntryPrice) == "0.00" && SlPreview(f.peEntryPrice) == "0.00"
      && TotalPreview(f) == 0.0
  {
    var q := DefaultQuantity;
    assert LeadingInt(q) == Some(375) by {
      assert AllDigits(q);
      DigitPrefixAll(q);
      assert q[..2][..1] == "3" && q[..2] == "37";
      assert DigitsValue("3") == 3;
      assert DigitsValue("37") == 37;
    }
    assert ParseDecimal("").None?;
  }

  /** A complete form whose numbers all read as a draft's, and whose text fields
      are the draft's, reads as that draft. */
  lemma ReadFormReady(f: FormState, d: TradeDraft)
    requires Complete(f)
    requires LeadingInt(f.strike) == Some(d.strike) && LeadingInt(f.quantity) == Some(d.quantity)
    requires ParseDecimal(f.ceEntryPrice) == Some(d.ceEntryPrice)
    requires ParseDecimal(f.ceExitPrice) == Some(d.ceExitPrice)
    requires ParseDecimal(f.peEntryPrice) == Some(d.peEntryPrice)
    requires ParseDecimal(f.peExitPrice) == Some(d.peExitPrice)
    requires f.tradeDate == d.tradeDate && f.tradeType == d.tradeType
    requires f.ceEntryTime == d.ceEntryTime && f.ceExitTime == d.ceExitTime
    requires f.peEntryTime == d.peEntryTime && f.peExitTime == d.peExitTime
    requires d.notes == Some(f.notes)
    ensures ReadForm(f) == Ready(d)
  {
  }

  /** Filling the form from a trade and reading it back gives the trade again,
      when its prices have at most two decimals and its date and times are not
      empty; absent notes come back as the empty text. */
  lemma PopulateThenRead(t: Trade)
    requires t.tradeDate != "" && t.ceEntryTime != "" && t.ceExitTime != ""
    requires t.peEntryTime != "" && t.peExitTime != ""
    requires IsHundredths(t.ceEntryPrice) && IsHundredths(t.ceExitPrice)
    requires IsHundredths(t.peEntryPrice) && IsHundredths(t.peExitPrice)
    ensures ReadForm(Populated(t)) == Ready(DraftOf(Resaved(t)))
  {
    ParseIntString(t.strike);
    LeadingIntExtends(IntString(t.strike));
    ParseIntString(t.quantity);
    LeadingIntExtends(IntString(t.quantity));
    ParseNumberString(t.ceEntryPrice);
    ParseNumberString(t.ceExitPrice);
    ParseNumberString(t.peEntryPrice);
    ParseNumberString(t.peExitPrice);
    ReadFormReady(Populated(t), DraftOf(Resaved(t)));
  }

  /** Opening a trade for editing and saving it unchanged updates that same trade
      (under its own id) with the same fields. */
  lemma EditUnchangedUpdatesSame(t: Trade)
    requires t.tradeDate != "" && t.ceEntryTime != "" && t.ceExitTime != ""
    requires t.peEntryTime != "" && t.peExitTime != ""
    requires IsHundredths(t.ceEntryPrice) && IsHundredths(t.ceExitPrice)
    requires IsHundredths(t.peEntryPrice) && IsHundredths(t.peExitPrice)
    ensures SaveActionOf(ReadForm(Populated(t)), Some(t)) == UpdateTrade(Resaved(t))
    ensures Pnl(Resaved(t)) == Pnl(t)
  {
    PopulateThenRead(t);
  }

  /** Saving sends something exactly when the form is readable; an edit keeps the
      edited trade's id and every field read from the form. */
  lemma SaveRouting(r: FormResult, tradeToEdit: Option<Trade>)
    ensures SaveActionOf(r, tradeToEdit) == NoSave <==> !r.Ready?
    ensures r.Ready? && tradeToEdit.Some? ==>
      SaveActionOf(r, tradeToEdit).UpdateTrade?
      && SaveActionOf(r, tradeToEdit).trade.id == tradeToEdit.value.id
      && DraftOf(SaveActionOf(r, tradeToEdit).trade) == r.draft
    ensures r.Ready? && tradeToEdit.None? ==> SaveActionOf(r, tradeToEdit) == AddTrade(r.draft)
  {
  }

  /** The preview's arithmetic is `calculateLegPnl`'s, and both are 0 for no quantity. */
  lemma PreviewArithmetic(entry: real, exit: real, quantity: int, tradeType: TradeType)
    ensures PreviewPnl(entry, exit, quantity, tradeType) == LegPnl(entry, exit, quantity, tradeType)
  {
    var q := quantity as real;
    if quantity == 0 {
      assert (entry - exit) * q == 0.0 && (exit - entry) * q == 0.0;
    } else if tradeType == Buy {
      assert -(entry - exit) * q == (exit - entry) * q;
    }
  }

  /** A leg's preview is `calculateLegPnl` on the prices read, with the quantity
      read leniently; while a price cannot be read it is 0. */
  lemma LegPreviewIsLegPnl(entryText: string, exitText: string, quantityText: string, tradeType: TradeType)
    ensures ParseDecimal(entryText).Some? && ParseDecimal(exitText).Some? ==>
      LegPreview(entryText, exitText, quantityText, tradeType)
        == LegPnl(ParseDecimal(entryText).value, ParseDecimal(exitText).value,
                  ParsedQuantity(quantityText), tradeType)
    ensures ParseDecimal(entryText).None? || ParseDecimal(exitText).None? ==>
      LegPreview(entryText, exitText, quantityText, tradeType) == 0.0
  {
    var entry, exit := ParseDecimal(entryText), ParseDecimal(exitText);
    if entry.Some? && exit.Some? {
      PreviewArithmetic(entry.value, exit.value, ParsedQuantity(quantityText), tradeType);
    }
  }

  /** The total shown while typing is the P/L of the trade the form saves. */
  lemma PreviewIsSavedPnl(f: FormState, id: int)
    requires ReadForm(f).Ready?
    ensures TotalPreview(f) == Pnl(WithId(ReadForm(f).draft, id))
  {
    var d := ReadForm(f).draft;
    LegPreviewIsLegPnl(f.ceEntryPrice, f.ceExitPrice, f.quantity, f.tradeType);
    LegPreviewIsLegPnl(f.peEntryPrice, f.peExitPrice, f.quantity, f.tradeType);
    assert ParsedQuantity(f.quantity) == d.quantity;
  }

  /** The stop-loss preview is `calculateSl` written with two decimals for a
      non-negative entry, but it has no floor: a negative entry shows a negative
      stop-loss where `calculateSl` gives 0. */
  lemma SlPreviewVersusSl(entryText: string)
    ensures ParseDecimal(entryText).None? ==> SlPreview(entryText) == "0.00"
    ensures ParseDecimal(entryText).Some? && ParseDecimal(entryText).value >= 0.0 ==>
      SlPreview(entryText) == FixedTwo(Sl(ParseDecimal(entryText).value))
    ensures ParseDecimal(entryText).Some? && ParseDecimal(entryText).value < 0.0 ==>
      SlPreview(entryText) != FixedTwo(Sl(ParseDecimal(entryText).value))
  {
    if ParseDecimal(entryText).Some? {
      SlPreviewOfEntry(entryText);
      FixedSl(ParseDecimal(entryText).value);
    }
  }

  /** One and a half times an entry, written with two decimals, is the
      stop-loss written so exactly when the entry is not negative. */
  lemma FixedSl(x: real)
    ensures x >= 0.0 ==> FixedTwo(SlMultiple(x)) == FixedTwo(Sl(x))
    ensures x < 0.0 ==> FixedTwo(SlMultiple(x)) != FixedTwo(Sl(x))
  {
    if x < 0.0 {
      assert Sl(x) == 0.0;
      NegativeFixedTwo(SlMultiple(x));
    } else {
      assert Sl(x) == SlMultiple(x);
    }
  }

  /** `toFixed(2)` of a negative number differs from that of zero. */
  lemma NegativeFixedTwo(x: real)
    requires x < 0.0
    ensures FixedTwo(x) != FixedTwo(0.0)
  {
    assert FixedTwo(x)[0] == '-';
    assert FixedTwo(0.0) == DecimalString(0) + "." + Pad2(0);
    assert IsDigit(DecimalString(0)[0]);
  }

  /** The stop-loss preview reads back within half a hundredth of one and a half
      times the entry. */
  lemma SlPreviewReadsBack(entryText: string)
    requires ParseDecimal(entryText).Some?
    ensures ParseDecimal(SlPreview(entryText)).Some?
    ensures -0.005 <= ParseDecimal(SlPreview(entryText)).value - ParseDecimal(entryText).value * 1.5 <= 0.005
  {
    SlPreviewOfEntry(entryText);
    ParseFixedTwo(SlMultiple(ParseDecimal(entryText).value));
  }

  /** A readable entry previews one and a half times itself with two decimals. */
  lemma SlPreviewOfEntry(entryText: string)
    requires ParseDecimal(entryText).Some?
    ensures SlPreview(entryText) == FixedTwo(SlMultiple(ParseDecimal(entryText).value))
  {
  }
}
