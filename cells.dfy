/**
 Rows and cells of a worksheet, and `InsertCellInRow` (Translator.cs): find the cell at a
 column/row reference or insert a new one where the row's ordering asks for it.
 */
module Cells {
  import opened Wrappers
  import opened Strings

  /** The `t` attribute of a cell. */
  datatype CellType = Boolean | Number | Error | SharedString | Str | InlineString | Date

  /** A cell: its reference ("D17"), its data type and its text (the `CellValue`). */
  datatype Cell = Cell(reference: Option<string>, dataType: Option<CellType>, value: string)

  /** A row: its 1-based index and its cells in document order. */
  datatype Row = Row(rowIndex: Option<nat>, cells: seq<Cell>)

  /** The sheet data of one worksheet; its rows are changed in place. */
  class SheetData {
    var rows: seq<Row>

    constructor (rows: seq<Row>)
      ensures this.rows == rows
    {
      this.rows := rows;
    }
  }

  /** `columnName + row.RowIndex`; a row without an index contributes nothing. */
  function CellReference(columnName: string, rowIndex: Option<nat>): (r: string)
    ensures columnName <= r
    ensures rowIndex.Some? <==> |r| > |columnName|
  {
    columnName + match rowIndex { case Some(n) => FormatNat(n) case None => "" }
  }

  /** After the column name, a reference holds the row's index as digits that parse back to it. */
  lemma CellReferenceRowIndex(columnName: string, n: nat)
    requires n <= Int32Max
    ensures ParseInt32(CellReference(columnName, Some(n))[|columnName|..]) == Some(n)
  {
    assert CellReference(columnName, Some(n))[|columnName|..] == FormatNat(n);
    ParseFormatRoundTrip(n);
  }

  /** The cell `InsertCellInRow` creates. */
  function NewCell(reference: string): Cell {
    Cell(Some(reference), None, "")
  }

  /** The position of the first cell whose reference is exactly `reference`, if any. */
  function FindCell(cells: seq<Cell>, reference: string): (r: Option<nat>)
    ensures r.None? <==> forall i :: 0 <= i < |cells| ==> cells[i].reference != Some(reference)
    ensures r.Some? ==> r.value < |cells| && cells[r.value].reference == Some(reference)
    ensures r.Some? ==> forall i :: 0 <= i < r.value ==> cells[i].reference != Some(reference)
  {
    if cells == [] then None
    else if cells[0].reference == Some(reference) then Some(0)
    else match FindCell(cells[1..], reference)
      case None => None
      case Some(k) => Some(k + 1)
  }

  /** A cell whose reference has the same length as `reference` and sorts after it, ignoring case. */
  predicate SortsAfter(c: Cell, reference: string) {
    c.reference.Some? && |c.reference.value| == |reference|
    && CompareIgnoreCase(c.reference.value, reference) > 0
  }

  /** Where a new cell goes: before the first cell that sorts after it, or at the end. */
  function InsertionPoint(cells: seq<Cell>, reference: string): (p: nat)
    ensures p <= |cells|
    ensures forall i :: 0 <= i < p ==> !SortsAfter(cells[i], reference)
    ensures p < |cells| ==> SortsAfter(cells[p], reference)
  {
    if cells == [] || SortsAfter(cells[0], reference) then 0
    else 1 + InsertionPoint(cells[1..], reference)
  }

  /** A row's cells after `InsertCellInRow`, and the position of the cell it returns. */
  datatype Placement = Placement(cells: seq<Cell>, pos: nat)

  /**
   `InsertCellInRow` on a row's cells: the row after the call, and the position of the cell it
   returns (see `PlaceCellPlaces`).
   */
  function PlaceCell(cells: seq<Cell>, reference: string): (r: Placement)
    ensures r.pos < |r.cells|
  {
    match FindCell(cells, reference)
    case Some(i) => Placement(cells, i)
    case None =>
      var p := InsertionPoint(cells, reference);
      Placement(cells[..p] + [NewCell(reference)] + cells[p..], p)
  }

  /**
   The cell at `reference` is the first one already there, with the row unchanged; otherwise a
   new cell is inserted just before the first same-length cell that sorts after it (or at the
   end), and removing it gives back the original row.
   */
  lemma PlaceCellPlaces(cells: seq<Cell>, reference: string)
    ensures var r := PlaceCell(cells, reference);
      && FindCell(r.cells, reference) == Some(r.pos)
      && (FindCell(cells, reference).Some? ==> r.cells == cells)
      && (FindCell(cells, reference).None? ==>
            && r.cells[r.pos] == NewCell(reference)
            && r.cells[..r.pos] + r.cells[r.pos + 1..] == cells
            && (forall i :: 0 <= i < r.pos ==> !SortsAfter(cells[i], reference))
            && (r.pos < |cells| ==> SortsAfter(cells[r.pos], reference)))
  {
    if FindCell(cells, reference).None? {
      var p := InsertionPoint(cells, reference);
      var cells' := cells[..p] + [NewCell(reference)] + cells[p..];
      assert cells'[..p] + cells'[p + 1..] == cells;
      assert forall i :: 0 <= i < p ==> cells'[i] == cells[i];
      assert cells'[p].reference == Some(reference);
      var q := FindCell(cells', reference).value;
      assert !(q < p) && !(p < q);
    }
  }

  /** Two cells whose references are both present and of the same length. */
  predicate SameWidth(a: Cell, b: Cell) {
    a.reference.Some? && b.reference.Some? && |a.reference.value| == |b.reference.value|
  }

  /** Cells whose references have the same length appear in ascending order, ignoring case. */
  ghost predicate Ascending(cells: seq<Cell>) {
    forall i, j :: 0 <= i < j < |cells| && SameWidth(cells[i], cells[j]) ==>
      CompareIgnoreCase(cells[i].reference.value, cells[j].reference.value) <= 0
  }

  /** A new cell sorts no later than any same-length cell from its insertion point on. */
  lemma SortsBeforeRest(cells: seq<Cell>, reference: string, k: nat)
    requires Ascending(cells) && InsertionPoint(cells, reference) <= k < |cells|
    requires cells[k].reference.Some? && |cells[k].reference.value| == |reference|
    ensures CompareIgnoreCase(reference, cells[k].reference.value) <= 0
  {
    var p := InsertionPoint(cells, reference);
    var c := cells[p].reference.value;
    CompareAntisymmetric(c, reference);
    if p < k {
      CompareTransitive(reference, c, cells[k].reference.value);
    }
  }

  /** Placing a cell keeps the same-length references of a row in ascending order. */
  lemma PlaceCellKeepsAscending(cells: seq<Cell>, reference: string)
    requires Ascending(cells)
    ensures Ascending(PlaceCell(cells, reference).cells)
  {
    if FindCell(cells, reference).None? {
      var p := InsertionPoint(cells, reference);
      var r := cells[..p] + [NewCell(reference)] + cells[p..];
      assert PlaceCell(cells, reference).cells == r;
      forall i, j | 0 <= i < j < |r| && SameWidth(r[i], r[j])
        ensures CompareIgnoreCase(r[i].reference.value, r[j].reference.value) <= 0
      {
        if i == p {
          assert r[j] == cells[j - 1];
          SortsBeforeRest(cells, reference, j - 1);
        } else if j == p {
          assert r[i] == cells[i] && !SortsAfter(cells[i], reference);
        } else {
          var i' := if i < p then i else i - 1;
          var j' := if j < p then j else j - 1;
          assert r[i] == cells[i'] && r[j] == cells[j'];
        }
      }
    }
  }

  /**
   `InsertCellInRow` on row `k`: returns the position of the cell at `columnName` + the row's
   index, creating it in order when the row has none.
   */
  method InsertCellInRow(sheetData: SheetData, k: nat, columnName: string) returns (pos: nat)
    requires k < |sheetData.rows|
    modifies sheetData
    ensures var row := old(sheetData.rows[k]);
            var placed := PlaceCell(row.cells, CellReference(columnName, row.rowIndex));
            && pos == placed.pos
            && sheetData.rows == old(sheetData.rows)[k := row.(cells := placed.cells)]
  {
    var row := sheetData.rows[k];
    var cellReference := CellReference(columnName, row.rowIndex);
    PlaceCellPlaces(row.cells, cellReference);
    var existing := FindCell(row.cells, cellReference);
    if existing.Some? {
      return existing.value;
    }
    var i := 0;
    while i < |row.cells| && !SortsAfter(row.cells[i], cellReference)
      invariant i <= |row.cells|
      invariant forall j :: 0 <= j < i ==> !SortsAfter(row.cells[j], cellReference)
    {
      i := i + 1;
    }
    var newCell := NewCell(cellReference);
    sheetData.rows := sheetData.rows[k := row.(cells := row.cells[..i] + [newCell] + row.cells[i..])];
    pos := i;
  }
}
