/** The row builders and the append cursor of server.js. The page, the clock
    and the Google Sheets client are outside the model: the table arrives as a
    sequence of rows, the capture time as a string, and the append call's
    answer as an AppendResult. */
module Server {
  import opened Js

  // ---------------------------------------------------------------------
  // Row building

  /** One row of the price table: the inner text of its first three child nodes,
      which is also the shape of the record getGoldPrices2 keeps. */
  datatype GoldRow = GoldRow(goldType: string, purchasePrice: string, sellPrice: string)

  /** getGoldPrices: the purchase and sell price of every row, in table
      order, behind the capture time: [date, p1, s1, p2, s2, ...]. */
  method GetGoldPrices(rows: seq<GoldRow>, updatedDate: string) returns (goldPrices: seq<string>)
    ensures |goldPrices| == 1 + 2 * |rows|
    ensures goldPrices[0] == updatedDate
    ensures forall i :: 0 <= i < |rows| ==>
              goldPrices[2 * i + 1] == rows[i].purchasePrice && goldPrices[2 * i + 2] == rows[i].sellPrice
  {
    var goldPriceInfo: seq<string> := [];
    for k := 0 to |rows|
      invariant |goldPriceInfo| == 2 * k
      invariant forall i :: 0 <= i < k ==>
                  goldPriceInfo[2 * i] == rows[i].purchasePrice && goldPriceInfo[2 * i + 1] == rows[i].sellPrice
    {
      goldPriceInfo := goldPriceInfo + [rows[k].purchasePrice];
      goldPriceInfo := goldPriceInfo + [rows[k].sellPrice];
    }
    goldPrices := [updatedDate] + goldPriceInfo;
  }

  /** The rows getGoldPrices2 keeps: the type names SJC gold or the Hanoi
      branch ("TT Hà Nội"), matched as case-sensitive substrings. */
  function IsTracked(row: GoldRow): (tracked: bool)
    ensures tracked <==> (exists i :: OccursAt(row.goldType, "SJC", i)) || (exists i :: OccursAt(row.goldType, "TT Hà Nội", i))
  {
    Includes(row.goldType, "SJC") || Includes(row.goldType, "TT Hà Nội")
  }

  /** An element of getGoldPrices2's result: the capture time, or a record. */
  datatype PriceEntry = Stamp(date: string) | Record(row: GoldRow)

  function Records(rows: seq<GoldRow>): (r: seq<PriceEntry>)
    ensures |r| == |rows| && forall i :: 0 <= i < |rows| ==> r[i] == Record(rows[i])
  {
    if rows == [] then [] else [Record(rows[0])] + Records(rows[1..])
  }

  lemma {:induction false} RecordsConcat(a: seq<GoldRow>, b: seq<GoldRow>)
    ensures Records(a + b) == Records(a) + Records(b)
  {
    assert |Records(a + b)| == |Records(a) + Records(b)|;
    forall i | 0 <= i < |a + b| ensures Records(a + b)[i] == (Records(a) + Records(b))[i] {
      if i < |a| {
        assert (a + b)[i] == a[i];
      } else {
        assert (a + b)[i] == b[i - |a|];
      }
    }
  }

  /** getGoldPrices2: the capture time, then a record for exactly the tracked
      rows, in table order. */
  method GetGoldPrices2(rows: seq<GoldRow>, updatedDate: string) returns (goldPrices: seq<PriceEntry>)
    ensures |goldPrices| >= 1 && goldPrices[0] == Stamp(updatedDate)
    ensures goldPrices[1..] == Records(Filter(rows, IsTracked))
    ensures forall e :: e in goldPrices[1..] ==> e.Record? && e.row in rows && IsTracked(e.row)
    ensures forall row :: row in rows && IsTracked(row) ==> Record(row) in goldPrices[1..]
  {
    var goldPriceInfo: seq<PriceEntry> := [];
    for k := 0 to |rows|
      invariant goldPriceInfo == Records(Filter(rows[..k], IsTracked))
    {
      assert rows[..k + 1] == rows[..k] + [rows[k]];
      FilterConcat(rows[..k], [rows[k]], IsTracked);
      RecordsConcat(Filter(rows[..k], IsTracked), Filter([rows[k]], IsTracked));
      if IsTracked(rows[k]) {
        goldPriceInfo := goldPriceInfo + [Record(rows[k])];
      }
    }
    assert rows[..|rows|] == rows;
    goldPrices := [Stamp(updatedDate)] + goldPriceInfo;
    assert goldPrices[1..] == goldPriceInfo;
    TrackedRecords(rows);
  }

  /** The records of the tracked rows are those of tracked table rows, and
      every tracked table row has its record among them. */
  lemma TrackedRecords(rows: seq<GoldRow>)
    ensures forall e :: e in Records(Filter(rows, IsTracked)) ==> e.Record? && e.row in rows && IsTracked(e.row)
    ensures forall row :: row in rows && IsTracked(row) ==> Record(row) in Records(Filter(rows, IsTracked))
  {
    var kept := Filter(rows, IsTracked);
    var records := Records(kept);
    forall e | e in records ensures e.Record? && e.row in rows && IsTracked(e.row) {
      var i :| 0 <= i < |records| && records[i] == e;
      FilterMembership(rows, IsTracked, kept[i]);
    }
    forall row | row in rows && IsTracked(row) ensures Record(row) in records {
      FilterMembership(rows, IsTracked, row);
      var i :| 0 <= i < |kept| && kept[i] == row;
      assert records[i] == Record(row);
    }
  }

  /** A table with one SJC row and one untracked row yields the stamp and the
      SJC record only. */
  lemma TrackedExample()
    ensures Filter([GoldRow("Vàng SJC 1L", "7650", "7850"), GoldRow("Nhẫn tròn", "6300", "6400")], IsTracked)
            == [GoldRow("Vàng SJC 1L", "7650", "7850")]
  {
    var sjc, ring := GoldRow("Vàng SJC 1L", "7650", "7850"), GoldRow("Nhẫn tròn", "6300", "6400");
    SjcRowTracked(sjc);
    RingRowNotTracked(ring);
    assert [sjc, ring][1..] == [ring];
    assert [ring][1..] == [];
  }

  lemma SjcRowTracked(row: GoldRow)
    requires row.goldType == "Vàng SJC 1L"
    ensures IsTracked(row)
  {
    assert row.goldType[5..8] == "SJC";
    assert OccursAt(row.goldType, "SJC", 5);
  }

  lemma RingRowNotTracked(row: GoldRow)
    requires row.goldType == "Nhẫn tròn"
    ensures !IsTracked(row)
  {
    NotIncludedByChar(row.goldType, "SJC", 'S');
    NotIncludedByChar(row.goldType, "TT Hà Nội", 'T');
  }

  /** A needle starting with a character the text never holds is not in it. */
  lemma NotIncludedByChar(s: string, t: string, c: char)
    requires |t| > 0 && t[0] == c && c !in s
    ensures !Includes(s, t)
  {
    forall i | 0 <= i && i + |t| <= |s| ensures !OccursAt(s, t, i) {
      assert s[i] != c;
    }
  }

  // ---------------------------------------------------------------------
  // Cells and ranges

  const SpreadsheetId := "1u-iQNd_hhQAUI08nuA6rsqO7Xar99J1_bAObLsyMZOM"

  /** A cell in A1 notation: a column letter followed by a row number written
      as String(n) writes it. */
  predicate IsCell(column: char, cell: string)
  {
    |cell| >= 2 && cell[0] == column && IsCanonicalDecimal(cell[1..])
  }

  /** `column + row`: the cell string the cursor update builds. */
  function Cell(column: char, row: nat): (cell: string)
    ensures IsCell(column, cell) && RowOf(cell) == row
  {
    NumberRoundTrip(row);
    var cell := [column] + NumberToString(row);
    assert cell[1..] == NumberToString(row);
    cell
  }

  /** `Number(cell.substr(1, cell.length))`: the row number of a cell. */
  function RowOf(cell: string): (row: nat)
    requires |cell| >= 1 && AllDigits(cell[1..])
    ensures IsCanonicalDecimal(cell[1..]) ==> (row == 0 <==> cell[1..] == "0")
  {
    assert StringToNumber("0") == 0 by {
      assert "0"[..0] == [];
    }
    StringToNumber(cell[1..])
  }

  /** `column + (Number(cell.substr(1, cell.length)) + n)`: the expression
      both cursor assignments use, moving `n` rows down from `cell`'s row. */
  function NextCell(column: char, cell: string, n: nat): (next: string)
    requires |cell| >= 1 && AllDigits(cell[1..])
    ensures next == Cell(column, RowOf(cell) + n)
    ensures IsCell(column, next) && RowOf(next) == RowOf(cell) + n
  {
    [column] + NumberToString(StringToNumber(cell[1..]) + n)
  }

  /** Every well-formed cell is the one its column and row number build. */
  lemma CellOfRow(column: char, cell: string)
    requires IsCell(column, cell)
    ensures Cell(column, RowOf(cell)) == cell
  {
    CanonicalRoundTrip(cell[1..]);
    assert cell == [cell[0]] + cell[1..];
  }

  /** `Sheet1!${startCell}:${endCell}`: the range of the request and of its
      payload. */
  function SheetRange(startCell: string, endCell: string): (range: string)
    ensures |range| == 8 + |startCell| + |endCell| && StartsWith(range, "Sheet1!")
    ensures range[7..7 + |startCell|] == startCell && range[7 + |startCell|] == ':'
    ensures range[8 + |startCell|..] == endCell
  {
    "Sheet1!" + startCell + ":" + endCell
  }

  /** Distinct cursor positions give distinct range strings: the range names
      the cells it was built from and nothing else. */
  lemma SheetRangeInjective(a: string, b: string, c: string, d: string)
    requires IsCell('A', a) && IsCell('S', b) && IsCell('A', c) && IsCell('S', d)
    requires SheetRange(a, b) == SheetRange(c, d)
    ensures a == c && b == d
  {
  }

  // ---------------------------------------------------------------------
  // The append cursor

  /** What `gsapi.spreadsheets.values.append` answered: the HTTP status and
      `data.updates.updatedRows`. */
  datatype AppendResult = AppendResult(status: int, updatedRows: nat)

  /** The request addNewRowToSheet sends; `auth` is left out. */
  datatype AppendRequest = AppendRequest(
    spreadsheetId: string,
    range: string,
    valueInputOption: string,
    resourceRange: string,
    majorDimension: string,
    values: seq<seq<string>>)

  /** The start row after one append, as the code computes it. */
  function NextStartRow(startRow: nat, result: AppendResult): nat
  {
    if result.status == 200 then startRow + result.updatedRows else startRow
  }

  /** The module-level `startCell`/`endCell` pair of server.js. */
  class SheetCursor {
    var startCell: string
    var endCell: string

    /** The cells keep their columns and stay well formed; the end row never
        lies before the start row. */
    ghost predicate Valid()
      reads this
    {
      IsCell('A', startCell) && IsCell('S', endCell) && RowOf(startCell) <= RowOf(endCell)
    }

    ghost function StartRow(): nat
      reads this
      requires Valid()
    {
      RowOf(startCell)
    }

    ghost function EndRow(): nat
      reads this
      requires Valid()
    {
      RowOf(endCell)
    }

    /** `let startCell = "A4", endCell = "S4"`. */
    constructor ()
      ensures Valid() && startCell == "A4" && endCell == "S4"
      ensures StartRow() == 4 && EndRow() == 4
    {
      startCell := "A4";
      endCell := "S4";
      new;
      assert IsCell('A', startCell) && StringToNumber(startCell[1..]) == 4;
      assert IsCell('S', endCell) && StringToNumber(endCell[1..]) == 4;
    }

    /** addNewRowToSheet: the request targets the current range; only status
        200 moves the cursor, and then the start row advances by the rows
        written while the end cell is computed from the already advanced
        start cell, landing at old start row + 2 * updatedRows. */
    method AddNewRowToSheet(rowData: seq<string>, result: AppendResult) returns (request: AppendRequest)
      requires Valid()
      modifies this
      ensures Valid()
      ensures request.spreadsheetId == SpreadsheetId && request.valueInputOption == "USER_ENTERED"
      ensures request.range == SheetRange(old(startCell), old(endCell)) && request.resourceRange == request.range
      ensures request.majorDimension == "ROWS" && request.values == [rowData]
      ensures result.status != 200 ==> startCell == old(startCell) && endCell == old(endCell)
      ensures result.status == 200 ==>
                startCell == Cell('A', old(StartRow()) + result.updatedRows) &&
                endCell == Cell('S', old(StartRow()) + 2 * result.updatedRows)
      ensures StartRow() == NextStartRow(old(StartRow()), result)
    {
      var range := SheetRange(startCell, endCell);
      request := AppendRequest(SpreadsheetId, range, "USER_ENTERED", range, "ROWS", [rowData]);
      if result.status == 200 {
        Advance(result.updatedRows);
      }
    }

    /** The two cursor assignments of a successful append:
        `startCell = "A" + (row + n)`, then `endCell = "S" + (row' + n)` where
        row' is the row of the start cell just written. */
    method Advance(updatedRows: nat)
      requires Valid()
      modifies this
      ensures Valid()
      ensures startCell == Cell('A', old(StartRow()) + updatedRows)
      ensures endCell == Cell('S', old(StartRow()) + 2 * updatedRows)
      ensures StartRow() == old(StartRow()) + updatedRows
    {
      startCell := NextCell('A', startCell, updatedRows);
      endCell := NextCell('S', startCell, updatedRows);
    }
  }

  /** mainProcess: scrape the table into one flat row and append it. Nothing
      checks the row first, so every tick sends an append, even for an empty
      table, whose row is the capture time alone. */
  method MainProcess(cursor: SheetCursor, rows: seq<GoldRow>, updatedDate: string, result: AppendResult)
    returns (request: AppendRequest)
    requires cursor.Valid()
    modifies cursor
    ensures cursor.Valid()
    ensures request.range == SheetRange(old(cursor.startCell), old(cursor.endCell))
    ensures |request.values| == 1 && |request.values[0]| == 1 + 2 * |rows| && request.values[0][0] == updatedDate
    ensures cursor.StartRow() == NextStartRow(old(cursor.StartRow()), result)
    ensures forall i :: 0 <= i < |rows| ==>
              request.values[0][2 * i + 1] == rows[i].purchasePrice && request.values[0][2 * i + 2] == rows[i].sellPrice
    ensures result.status != 200 ==> cursor.startCell == old(cursor.startCell) && cursor.endCell == old(cursor.endCell)
    ensures result.status == 200 ==>
              cursor.startCell == Cell('A', old(cursor.StartRow()) + result.updatedRows) &&
              cursor.endCell == Cell('S', old(cursor.StartRow()) + 2 * result.updatedRows)
  {
    var goldData := GetGoldPrices(rows, updatedDate);
    request := cursor.AddNewRowToSheet(goldData, result);
  }

  // ---------------------------------------------------------------------
  // What the cursor update does over time

  /** After one successful append of n > 0 rows from start row r, the end
      cell is S(r + 2n), not the S(r + n) of a one-row window: the window
      spans n + 1 rows. */
  lemma EndCellOvershoots(r: nat, n: nat)
    requires n > 0
    ensures Cell('S', r + 2 * n) != Cell('S', r + n)
    ensures RowOf(Cell('S', r + 2 * n)) == RowOf(Cell('A', r + n)) + n
  {
  }

  /** An append of zero rows keeps the start cell, but rewrites the end cell
      to the start row: it is unchanged only if the two rows already agreed. */
  lemma ZeroRowAppend(startCell: string, endCell: string)
    requires IsCell('A', startCell) && IsCell('S', endCell)
    ensures Cell('A', RowOf(startCell) + 0) == startCell
    ensures Cell('S', RowOf(startCell) + 2 * 0) == endCell <==> RowOf(endCell) == RowOf(startCell)
  {
    CellOfRow('A', startCell);
    CellOfRow('S', endCell);
  }

  /** The start row after a series of serialized appends. */
  function StartRowAfter(startRow: nat, results: seq<AppendResult>): nat
    decreases |results|
  {
    if results == [] then startRow
    else StartRowAfter(NextStartRow(startRow, results[0]), results[1..])
  }

  /** The rows a successful append occupies start at the current start row. */
  function RowsWritten(result: AppendResult): nat
  {
    if result.status == 200 then result.updatedRows else 0
  }

  lemma {:induction false} StartRowAfterConcat(startRow: nat, a: seq<AppendResult>, b: seq<AppendResult>)
    ensures StartRowAfter(startRow, a + b) == StartRowAfter(StartRowAfter(startRow, a), b)
    decreases |a|
  {
    if a == [] {
      assert a + b == b;
    } else {
      assert (a + b)[0] == a[0] && (a + b)[1..] == a[1..] + b;
      StartRowAfterConcat(NextStartRow(startRow, a[0]), a[1..], b);
    }
  }

  lemma {:induction false} StartRowAfterGrows(startRow: nat, results: seq<AppendResult>)
    ensures StartRowAfter(startRow, results) >= startRow
    decreases |results|
  {
    if results != [] {
      StartRowAfterGrows(NextStartRow(startRow, results[0]), results[1..]);
    }
  }

  /** Serialized appends never overlap and leave no gap in the start column:
      append i writes rows [s_i, s_i + n_i), and append j > i starts at or
      after s_i + n_i, exactly there when j == i + 1. */
  lemma StartRowsContiguous(startRow: nat, results: seq<AppendResult>, i: nat, j: nat)
    requires i < j <= |results|
    ensures StartRowAfter(startRow, results[..i]) + RowsWritten(results[i]) <= StartRowAfter(startRow, results[..j])
    ensures j == i + 1 ==>
              StartRowAfter(startRow, results[..j]) == StartRowAfter(startRow, results[..i]) + RowsWritten(results[i])
  {
    var si := StartRowAfter(startRow, results[..i]);
    assert results[..i + 1] == results[..i] + [results[i]];
    StartRowAfterConcat(startRow, results[..i], [results[i]]);
    assert StartRowAfter(si, [results[i]]) == StartRowAfter(NextStartRow(si, results[i]), []);
    assert results[..j] == results[..i + 1] + results[i + 1..j];
    StartRowAfterConcat(startRow, results[..i + 1], results[i + 1..j]);
    StartRowAfterGrows(StartRowAfter(startRow, results[..i + 1]), results[i + 1..j]);
  }

  // ---------------------------------------------------------------------
  // The cursor update as the range invariant intends it

  /** The update with the end row taken from the rows written rather than
      from the advanced start row: both cells move to old start row + n, so
      the window stays one row high. */
  function NextCellsIntended(startCell: string, endCell: string, result: AppendResult): (cells: (string, string))
    requires IsCell('A', startCell) && IsCell('S', endCell)
    ensures IsCell('A', cells.0) && IsCell('S', cells.1)
    ensures RowOf(cells.0) == NextStartRow(RowOf(startCell), result)
    ensures result.status == 200 ==> RowOf(cells.1) == RowOf(cells.0)
    ensures result.status != 200 ==> cells == (startCell, endCell)
    ensures RowsWritten(result) == 0 && RowOf(startCell) == RowOf(endCell) ==> cells == (startCell, endCell)
  {
    if result.status == 200 then
      var row := RowOf(startCell) + result.updatedRows;
      CellOfRow('A', startCell);
      CellOfRow('S', endCell);
      (Cell('A', row), Cell('S', row))
    else (startCell, endCell)
  }

  /** The scenario of one successful one-row append from the initial cursor,
      as the code runs it: the request goes to Sheet1!A4:S4 and the cursor
      becomes A5:S6, where the intended update gives A5:S5. */
  method FirstAppendScenario() returns (range: string, startCell: string, endCell: string, intendedEnd: string)
    ensures range == "Sheet1!A4:S4"
    ensures startCell == "A5" && endCell == "S6"
    ensures intendedEnd == "S5"
  {
    var cursor := new SheetCursor();
    var request := cursor.AddNewRowToSheet(["10/14/2026, 09:30", "7650", "7850"], AppendResult(200, 1));
    range, startCell, endCell := request.range, cursor.startCell, cursor.endCell;
    assert Cell('A', 5) == "A5" && Cell('S', 6) == "S6";
    intendedEnd := NextCellsIntended("A4", "S4", AppendResult(200, 1)).1;
    assert RowOf(intendedEnd) == 5;
    CellOfRow('S', intendedEnd);
    assert Cell('S', 5) == "S5";
  }

  /** A zero-row append after a one-row append moves the end cell back from
      S6 to S5 although no row was written. */
  method ZeroRowScenario() returns (endAfterFirst: string, endAfterSecond: string, startAfterSecond: string)
    ensures endAfterFirst == "S6" && endAfterSecond == "S5" && startAfterSecond == "A5"
  {
    var cursor := new SheetCursor();
    var first := cursor.AddNewRowToSheet(["10/14/2026, 09:30"], AppendResult(200, 1));
    assert Cell('A', 5) == "A5" && Cell('S', 6) == "S6" && Cell('S', 5) == "S5";
    endAfterFirst := cursor.endCell;
    var second := cursor.AddNewRowToSheet(["10/14/2026, 10:00"], AppendResult(200, 0));
    endAfterSecond, startAfterSecond := cursor.endCell, cursor.startCell;
  }
}
