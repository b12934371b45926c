/** The spreadsheet backend (Code.gs.js): trades kept as rows of a sheet
    whose first row is the header, read back as objects keyed by the header,
    and added, overwritten or deleted in place on request. */
module Backend {
  import opened Types
  import opened Text

  /** A sheet cell or an object field: text, a number, or JavaScript's `undefined`. */
  datatype Value = Undefined | Str(text: string) | Num(number: real)

  /** A JavaScript object: its fields by property name. */
  type Obj = map<string, Value>

  /** `HEADERS`: the column order of the sheet. */
  const Headers: seq<string> := [
    "id", "tradeDate", "strike", "type", "quantity",
    "ceEntryPrice", "ceExitPrice", "peEntryPrice", "peExitPrice",
    "ceEntryTime", "ceExitTime", "peEntryTime", "peExitTime", "notes"]

  /** `HEADERS.indexOf('id')`. */
  const IdIndex: nat := 0

  lemma HeadersDistinct()
    ensures |Headers| == 14 && Headers[IdIndex] == "id"
    ensures forall i, j :: 0 <= i < j < |Headers| ==> Headers[i] != Headers[j]
  {
  }

  /** The header row as the sheet holds it. */
  function HeaderRow(): (r: seq<Value>)
    ensures |r| == |Headers| && forall j :: 0 <= j < |r| ==> r[j] == Str(Headers[j])
  {
    seq(|Headers|, j requires 0 <= j < |Headers| => Str(Headers[j]))
  }

  /** The property name a header cell stands for (`String(cell)`). */
  function Key(v: Value): string
  {
    match v
    case Undefined => "undefined"
    case Str(s) => s
    case Num(n) => NumberString(n)
  }

  /** `row[j]`, `undefined` past the end of the row. */
  function CellAt(row: seq<Value>, j: int): Value
  {
    if 0 <= j < |row| then row[j] else Undefined
  }

  // ---------------------------------------------------------------------------
  // Rows and objects

  /** The object built from one data row: field `headers[j]` set to cell `j`,
      one header after the other, so that a later repeated header wins. */
  function RowObject(headers: seq<Value>, row: seq<Value>): (o: Obj)
    ensures forall k :: k in o <==> exists j :: 0 <= j < |headers| && Key(headers[j]) == k
    decreases |headers|
  {
    if headers == [] then map[]
    else
      var n := |headers| - 1;
      var o := RowObject(headers[..n], row)[Key(headers[n]) := CellAt(row, n)];
      assert forall j :: 0 <= j < n ==> headers[..n][j] == headers[j];
      o
  }

  /** Field `headers[j]` of a row's object is cell `j` when no later header repeats it. */
  lemma {:induction false} RowObjectField(headers: seq<Value>, row: seq<Value>, j: int)
    requires 0 <= j < |headers|
    requires forall k :: j < k < |headers| ==> Key(headers[k]) != Key(headers[j])
    ensures RowObject(headers, row)[Key(headers[j])] == CellAt(row, j)
    decreases |headers|
  {
    var n := |headers| - 1;
    assert RowObject(headers, row) == RowObject(headers[..n], row)[Key(headers[n]) := CellAt(row, n)];
    if j < n {
      assert headers[..n][j] == headers[j];
      assert forall k :: j < k < n ==> headers[..n][k] == headers[k];
      RowObjectField(headers[..n], row, j);
    }
  }

  /** One more header sets one more field. */
  lemma RowObjectStep(headers: seq<Value>, row: seq<Value>, j: nat)
    requires j < |headers|
    ensures RowObject(headers[..j + 1], row) == RowObject(headers[..j], row)[Key(headers[j]) := CellAt(row, j)]
  {
    assert headers[..j + 1][..j] == headers[..j];
  }

  /** `sheetDataToObjects`: one object per row after the header, in order. */
  method SheetDataToObjects(data: seq<seq<Value>>) returns (objects: seq<Obj>)
    ensures |data| == 0 ==> objects == []
    ensures |data| > 0 ==>
      |objects| == |data| - 1
      && forall i :: 0 <= i < |objects| ==> objects[i] == RowObject(data[0], data[i + 1])
  {
    objects := [];
    if |data| == 0 {
      return;
    }
    var headers := data[0];
    var i := 1;
    while i < |data|
      invariant 1 <= i <= |data| && |objects| == i - 1
      invariant forall k :: 0 <= k < |objects| ==> objects[k] == RowObject(headers, data[k + 1])
    {
      var obj := RowToObject(headers, data[i]);
      objects := objects + [obj];
      i := i + 1;
    }
  }

  /** The inner `forEach` of `sheetDataToObjects`: field `headers[j]` of a
      fresh object set to cell `j` of the row, one header after the other. */
  method RowToObject(headers: seq<Value>, row: seq<Value>) returns (obj: Obj)
    ensures obj == RowObject(headers, row)
  {
    obj := map[];
    var j := 0;
    while j < |headers|
      invariant 0 <= j <= |headers|
      invariant obj == RowObject(headers[..j], row)
    {
      RowObjectStep(headers, row, j);
      obj := obj[Key(headers[j]) := CellAt(row, j)];
      j := j + 1;
    }
    assert headers[..|headers|] == headers;
  }

  /** `trade[header] !== undefined ? trade[header] : ""`. */
  function FieldOrEmpty(obj: Obj, name: string): Value
  {
    if name in obj && obj[name] != Undefined then obj[name] else Str("")
  }

  /** `tradeObjectToRowArray`: the object's fields in header order, "" for a
      missing one. */
  function RowArray(obj: Obj): (row: seq<Value>)
    ensures |row| == |Headers|
    ensures forall j :: 0 <= j < |Headers| ==> row[j] == FieldOrEmpty(obj, Headers[j])
  {
    seq(|Headers|, j requires 0 <= j < |Headers| => FieldOrEmpty(obj, Headers[j]))
  }

  /** `getRange(i + 1, 1, 1, cells.length).setValues([cells])` on one row:
      the first cells are replaced and the cells after them keep their values. */
  function WriteCells(row: seq<Value>, cells: seq<Value>): (r: seq<Value>)
    ensures |r| == if |row| > |cells| then |row| else |cells|
    ensures r[..|cells|] == cells
    ensures forall k :: |cells| <= k < |row| ==> r[k] == row[k]
  {
    if |row| > |cells| then cells + row[|cells|..] else cells
  }

  /** Writing an object as a row and reading the row back under the header
      gives every header field back, with "" where the field was missing. */
  lemma RowRoundTrip(obj: Obj, name: string)
    requires name in Headers
    ensures name in RowObject(HeaderRow(), RowArray(obj))
    ensures RowObject(HeaderRow(), RowArray(obj))[name] == FieldOrEmpty(obj, name)
  {
    HeadersDistinct();
    var j :| 0 <= j < |Headers| && Headers[j] == name;
    RowObjectField(HeaderRow(), RowArray(obj), j);
  }

  /** The read-back object has exactly the header fields. */
  lemma RowRoundTripKeys(obj: Obj)
    ensures RowObject(HeaderRow(), RowArray(obj)).Keys == set h | h in Headers
  {
    var o := RowObject(HeaderRow(), RowArray(obj));
    forall k ensures k in o <==> k in Headers {
      if k in Headers {
        var j :| 0 <= j < |Headers| && Headers[j] == k;
        assert Key(HeaderRow()[j]) == k;
      }
    }
  }

  /** The trade as the web page sends it: every field, and `notes` only when present. */
  function TradeObject(t: Trade): (o: Obj)
    ensures forall h :: h in Headers && h != "notes" ==> h in o && o[h] != Undefined
    ensures "notes" in o <==> t.notes.Some?
  {
    var fields: Obj := map[
      "id" := Num(t.id as real), "tradeDate" := Str(t.tradeDate), "strike" := Num(t.strike as real),
      "type" := Str(if t.tradeType == Buy then "Buy" else "Sell"), "quantity" := Num(t.quantity as real),
      "ceEntryPrice" := Num(t.ceEntryPrice), "ceExitPrice" := Num(t.ceExitPrice),
      "peEntryPrice" := Num(t.peEntryPrice), "peExitPrice" := Num(t.peExitPrice),
      "ceEntryTime" := Str(t.ceEntryTime), "ceExitTime" := Str(t.ceExitTime),
      "peEntryTime" := Str(t.peEntryTime), "peExitTime" := Str(t.peExitTime)];
    if t.notes.Some? then fields["notes" := Str(t.notes.value)] else fields
  }

  /** A stored trade reads back with every field it was sent with, and with
      "" as notes when it had none. */
  lemma TradeRoundTrip(t: Trade, name: string)
    requires name in Headers
    ensures RowObject(HeaderRow(), RowArray(TradeObject(t)))[name]
            == if name == "notes" then Str(t.notes.GetOr("")) else TradeObject(t)[name]
  {
    RowRoundTrip(TradeObject(t), name);
  }

  // ---------------------------------------------------------------------------
  // Finding a row by id

  /** `Number(value)`: numbers as they are, text read from end to end as a
      decimal number ("" is 0), and NaN (nothing) for `undefined`. */
  function ToNumber(v: Value): (r: Option<real>)
    ensures v.Num? ==> r == Some(v.number)
    ensures v.Undefined? ==> r.None?
    ensures v == Str("") ==> r == Some(0.0)
    ensures v.Str? && v.text != "" && r.Some? ==> ParseDecimal(v.text) == r
  {
    match v
    case Undefined => None
    case Num(n) => Some(n)
    case Str(s) => JsNumber(s)
  }

  /** `Number(row[idIndex]) === Number(id)`; NaN equals nothing. */
  predicate IdMatches(row: seq<Value>, id: Value)
    ensures IdMatches(row, id) ==> ToNumber(CellAt(row, IdIndex)).Some? && ToNumber(id) == ToNumber(CellAt(row, IdIndex))
    ensures id.Undefined? || CellAt(row, IdIndex).Undefined? ==> !IdMatches(row, id)
  {
    var a, b := ToNumber(CellAt(row, IdIndex)), ToNumber(id);
    a.Some? && b.Some? && a.value == b.value
  }

  /** An id cell holding the id's digits as text matches the numeric id, as
      a sheet edited by hand or reformatted as text still does. */
  lemma TextIdMatches(row: seq<Value>, n: nat)
    requires |row| > IdIndex && row[IdIndex] == Str(DecimalString(n))
    ensures IdMatches(row, Num(n as real))
  {
    JsNumberDigits(DecimalString(n));
  }

  /** The first data row from `i` on whose id matches. */
  function FirstMatchFrom(rows: seq<seq<Value>>, id: Value, i: nat): (r: Option<nat>)
    ensures r.Some? ==>
      i <= r.value < |rows| && IdMatches(rows[r.value], id)
      && forall k :: i <= k < r.value ==> !IdMatches(rows[k], id)
    ensures r.None? ==> forall k :: i <= k < |rows| ==> !IdMatches(rows[k], id)
    decreases |rows| - i
  {
    if i >= |rows| then None
    else if IdMatches(rows[i], id) then Some(i)
    else FirstMatchFrom(rows, id, i + 1)
  }

  /** The last data row below `i` whose id matches; the header row 0 is never a candidate. */
  function LastMatchBelow(rows: seq<seq<Value>>, id: Value, i: nat): (r: Option<nat>)
    requires i <= |rows|
    ensures r.Some? ==>
      1 <= r.value < i && IdMatches(rows[r.value], id)
      && forall k :: r.value < k < i ==> !IdMatches(rows[k], id)
    ensures r.None? ==> forall k :: 1 <= k < i ==> !IdMatches(rows[k], id)
  {
    if i <= 1 then None
    else if IdMatches(rows[i - 1], id) then Some(i - 1)
    else LastMatchBelow(rows, id, i - 1)
  }

  /** What the script answers. */
  datatype Response = Success(message: string, trade: Option<Obj>) | Failure(message: string)

  /** The parsed request body: its action and payload. */
  datatype Request = Add(trade: Obj) | Update(trade: Obj) | Delete(id: Value) | Unknown(action: string)

  function IdOf(trade: Obj): Value
  {
    if "id" in trade then trade["id"] else Undefined
  }

  /** The sheet of trades, the header row first. */
  class Sheet {
    var rows: seq<seq<Value>>

    /** `getSheet` on a spreadsheet without the sheet: a new sheet holding only the header. */
    constructor ()
      ensures rows == [HeaderRow()]
    {
      rows := [HeaderRow()];
    }

    /** `doGet`: no trades for a sheet with at most the header row, otherwise
        one object per data row. */
    method DoGet() returns (trades: seq<Obj>)
      ensures |rows| <= 1 ==> trades == []
      ensures |rows| > 1 ==>
        |trades| == |rows| - 1
        && forall i :: 0 <= i < |trades| ==> trades[i] == RowObject(rows[0], rows[i + 1])
    {
      if |rows| <= 1 {
        return [];
      }
      trades := SheetDataToObjects(rows);
    }

    /** The 'add' action: the trade's row is appended after every other row. */
    method AddRow(trade: Obj) returns (response: Response)
      modifies this
      ensures rows == old(rows) + [RowArray(trade)]
      ensures response == Success("Trade added successfully", Some(trade))
    {
      rows := rows + [RowArray(trade)];
      response := Success("Trade added successfully", Some(trade));
    }

    /** The 'update' action: the header's width of cells of the first data row
        whose id matches is overwritten; without one the sheet stays as it is. */
    method UpdateRow(trade: Obj) returns (response: Response)
      modifies this
      ensures match FirstMatchFrom(old(rows), IdOf(trade), 1)
        case Some(i) => rows == old(rows)[i := WriteCells(old(rows)[i], RowArray(trade))]
                        && response == Success("Trade updated successfully", Some(trade))
        case None => rows == old(rows) && response == Failure("Trade not found for update")
    {
      var id := IdOf(trade);
      var i := 1;
      while i < |rows|
        invariant 1 <= i && FirstMatchFrom(rows, id, 1) == FirstMatchFrom(rows, id, i)
        invariant rows == old(rows)
        decreases |rows| - i
      {
        if IdMatches(rows[i], id) {
          rows := rows[i := WriteCells(rows[i], RowArray(trade))];
          return Success("Trade updated successfully", Some(trade));
        }
        i := i + 1;
      }
      return Failure("Trade not found for update");
    }

    /** The 'delete' action: the last data row whose id matches is removed;
        without one the sheet stays as it is. */
    method DeleteRow(id: Value) returns (response: Response)
      modifies this
      ensures match LastMatchBelow(old(rows), id, |old(rows)|)
        case Some(i) => rows == old(rows)[..i] + old(rows)[i + 1..]
                        && response == Success("Trade deleted successfully", None)
        case None => rows == old(rows) && response == Failure("Trade not found for deletion")
    {
      var i := |rows| - 1;
      while i > 0
        invariant -1 <= i < |rows|
        invariant LastMatchBelow(rows, id, |rows|) == LastMatchBelow(rows, id, i + 1)
        invariant rows == old(rows)
        decreases i
      {
        if IdMatches(rows[i], id) {
          rows := rows[..i] + rows[i + 1..];
          return Success("Trade deleted successfully", None);
        }
        i := i - 1;
      }
      return Failure("Trade not found for deletion");
    }

    /** `doPost`: dispatch on the action; any other action is refused and
        changes nothing. */
    method DoPost(request: Request) returns (response: Response)
      modifies this
      ensures request.Add? ==> rows == old(rows) + [RowArray(request.trade)] && response.Success?
      ensures request.Update? ==> (response.Success? <==> FirstMatchFrom(old(rows), IdOf(request.trade), 1).Some?)
      ensures request.Update? ==>
        match FirstMatchFrom(old(rows), IdOf(request.trade), 1)
        case Some(i) => rows == old(rows)[i := WriteCells(old(rows)[i], RowArray(request.trade))]
        case None => rows == old(rows)
      ensures request.Delete? ==> (response.Success? <==> LastMatchBelow(old(rows), request.id, |old(rows)|).Some?)
      ensures request.Delete? ==>
        match LastMatchBelow(old(rows), request.id, |old(rows)|)
        case Some(i) => rows == old(rows)[..i] + old(rows)[i + 1..]
        case None => rows == old(rows)
      ensures request.Unknown? ==> rows == old(rows) && response == Failure("Invalid action")
      ensures response.Failure? ==> rows == old(rows)
      ensures |old(rows)| > 0 ==> |rows| > 0 && rows[0] == old(rows)[0]
    {
      match request
      case Add(trade) =>
        response := AddRow(trade);
      case Update(trade) =>
        response := UpdateRow(trade);
      case Delete(id) =>
        response := DeleteRow(id);
      case Unknown(_) =>
        response := Failure("Invalid action");
    }
  }

  // ---------------------------------------------------------------------------
  // Properties of the row operations

  /** Overwriting the first matching row leaves the header and every other row
      as they were, and the overwritten row starts with the trade's cells. */
  lemma UpdateTouchesOneRow(rows: seq<seq<Value>>, trade: Obj, i: nat)
    requires FirstMatchFrom(rows, IdOf(trade), 1) == Some(i)
    ensures var after := rows[i := WriteCells(rows[i], RowArray(trade))];
      |after| == |rows| && after[0] == rows[0] && after[i][..|Headers|] == RowArray(trade)
      && forall k :: 0 <= k < |rows| && k != i ==> after[k] == rows[k]
  {
  }

  /** Deleting the last matching row keeps the header and shifts the later rows up by one. */
  lemma DeleteRemovesOneRow(rows: seq<seq<Value>>, id: Value, i: nat)
    requires LastMatchBelow(rows, id, |rows|) == Some(i)
    ensures var after := rows[..i] + rows[i + 1..];
      |after| == |rows| - 1 && after[0] == rows[0]
      && (forall k :: 0 <= k < i ==> after[k] == rows[k])
      && (forall k :: i <= k < |after| ==> after[k] == rows[k + 1])
      && forall k :: i <= k < |after| ==> !IdMatches(after[k], id)
  {
  }

  /** An added trade is found again by its id: it is the last matching row,
      which is the one a later delete removes. */
  lemma AddThenDelete(rows: seq<seq<Value>>, t: Trade)
    requires |rows| >= 1
    ensures LastMatchBelow(rows + [RowArray(TradeObject(t))], Num(t.id as real), |rows| + 1) == Some(|rows|)
  {
    var row := RowArray(TradeObject(t));
    var after := rows + [row];
    assert row[IdIndex] == Num(t.id as real) by {
      TradeObjectId(t);
      assert Headers[IdIndex] == "id";
    }
    assert IdMatches(after[|rows|], Num(t.id as real));
  }

  /** The trade's object carries its id as a number. */
  lemma TradeObjectId(t: Trade)
    ensures "id" in TradeObject(t) && TradeObject(t)["id"] == Num(t.id as real)
  {
    assert "notes" != "id" by { assert |"notes"| != |"id"|; }
  }
}
