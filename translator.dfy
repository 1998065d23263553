/**
 `ExcelTranslator.TranslateFile` and `GetCellValue` (Translator.cs): walk the rows of every
 worksheet, send the text of each eligible row to the translation service, and store the result
 in the target column through the shared-string table. The service is the parameter
 `translate`; the document is the sheet data and the shared-string table.
 */
module Translator {
  import opened Wrappers
  import opened Strings
  import opened SharedStrings
  import opened Cells

  /** The exceptions the modelled code can raise. */
  datatype Fault =
    | IndexOutOfRange           // `ElementAt` past the end (or before the start) of a sequence
    | NoElement                 // `First` of an empty sequence
    | DuplicateKey(key: string) // `Dictionary.Add` of a key already present

  /** `GetSharedStringItemById`: the table entry at `id`; `ElementAt` throws outside the table. */
  function GetSharedStringItemById(items: seq<string>, id: int): (r: Result<string, Fault>)
    ensures r.Ok? <==> 0 <= id < |items|
    ensures r.Ok? ==> r.value == items[id]
    ensures r.Err? ==> r.error == IndexOutOfRange
  {
    if 0 <= id < |items| then Ok(items[id]) else Err(IndexOutOfRange)
  }

  /**
   `GetCellValue`: the text of a shared-string cell whose content parses as an integer is the
   table entry it names; every other cell reads as the empty string.
   */
  function GetCellValue(cell: Cell, items: seq<string>): (r: Result<string, Fault>)
    ensures cell.dataType != Some(SharedString) ==> r == Ok("")
    ensures r.Err? ==> cell.dataType == Some(SharedString) && ParseInt32(cell.value).Some?
    ensures r.Ok? && r.value != "" ==> r.value in items
    ensures cell.dataType == Some(SharedString) && ParseInt32(cell.value).None? ==> r == Ok("")
    ensures cell.dataType == Some(SharedString) && ParseInt32(cell.value).Some? ==>
              var id := ParseInt32(cell.value).value;
              && (r.Ok? <==> 0 <= id < |items|)
              && (r.Ok? ==> r.value == items[id])
              && (r.Err? ==> r.error == IndexOutOfRange)
  {
    if cell.dataType == Some(SharedString) then
      match ParseInt32(cell.value)
      case None => Ok("")
      case Some(id) => GetSharedStringItemById(items, id)
    else Ok("")
  }

  /** A cell that resolves against a table resolves the same way once the table has grown. */
  lemma GetCellValueExtends(cell: Cell, items: seq<string>, more: seq<string>)
    requires items <= more && GetCellValue(cell, items).Ok?
    ensures GetCellValue(cell, more) == GetCellValue(cell, items)
  {
  }

  /** The cell written for translation `index` reads back as that table entry. */
  lemma {:induction false} WrittenCellReadsBack(cell: Cell, items: seq<string>, index: nat)
    requires index < |items| && index <= Int32Max
    ensures GetCellValue(cell.(dataType := Some(SharedString), value := FormatNat(index)), items) == Ok(items[index])
  {
    ParseFormatRoundTrip(index);
  }

  /** The marker that says a row's translation lives elsewhere. */
  const SkipMarker: string := "is already on another page"

  /**
   The source text of a row that is to be translated (the eligibility test of `TranslateFile`):
   the first cell's text when it is not blank and the third cell, if present, does not start
   with the marker in any case; `None` for a row to leave alone. Reading either cell may fail.
   */
  function SourceText(row: Row, items: seq<string>): (r: Result<Option<string>, Fault>)
    requires |row.cells| > 0
    ensures r.Err? <==> GetCellValue(row.cells[0], items).Err?
                        || (|row.cells| > 2 && GetCellValue(row.cells[2], items).Err?)
    ensures r.Ok? && r.value.Some? ==> GetCellValue(row.cells[0], items) == Ok(r.value.value)
    ensures r.Ok? ==> (r.value.Some? <==>
                        && !IsNullOrWhiteSpace(GetCellValue(row.cells[0], items).value)
                        && !(|row.cells| > 2 && StartsWith(ToLower(GetCellValue(row.cells[2], items).value), SkipMarker)))
  {
    match GetCellValue(row.cells[0], items)
    case Err(f) => Err(f)
    case Ok(source) =>
      match (if |row.cells| > 2 then GetCellValue(row.cells[2], items) else Ok(""))
      case Err(f) => Err(f)
      case Ok(translated) =>
        if IsNullOrWhiteSpace(source) || StartsWith(ToLower(translated), SkipMarker) then Ok(None)
        else Ok(Some(source))
  }

  /** Eligibility decided against a table stays the same once the table has grown. */
  lemma SourceTextExtends(row: Row, items: seq<string>, more: seq<string>)
    requires |row.cells| > 0 && items <= more && SourceText(row, items).Ok?
    ensures SourceText(row, more) == SourceText(row, items)
  {
    GetCellValueExtends(row.cells[0], items, more);
    if |row.cells| > 2 {
      GetCellValueExtends(row.cells[2], items, more);
    }
  }

  // ---- the translation request ----

  datatype Formality = Default | More

  /** What `TranslateTextAsync` is given. */
  datatype Request = Request(text: string, sourceLanguage: string, targetLanguage: string,
                             formality: Formality, glossaryId: Option<string>)

  /** The arguments of `TranslateFile`. */
  datatype Job = Job(skipHeader: bool, targetColumn: string, sourceLanguage: string,
                     targetLanguage: string, glossaryId: Option<string>)

  /** The request for one row: formal register for German, and the glossary when one is given. */
  function RequestFor(text: string, job: Job): (r: Request)
    ensures r.text == text && r.glossaryId == job.glossaryId
    ensures r.sourceLanguage == job.sourceLanguage && r.targetLanguage == job.targetLanguage
    ensures r.formality == More <==> job.targetLanguage == "de"
  {
    Request(text, job.sourceLanguage, job.targetLanguage,
            if job.targetLanguage == "de" then More else Default, job.glossaryId)
  }

  /** A row after the translation stored at table index `index` has been written to its target cell. */
  function WriteTranslation(row: Row, column: string, index: nat): (r: Row)
    ensures r.rowIndex == row.rowIndex
  {
    var placed := PlaceCell(row.cells, CellReference(column, row.rowIndex));
    var target := placed.cells[placed.pos];
    row.(cells := placed.cells[placed.pos := target.(dataType := Some(SharedString), value := FormatNat(index))])
  }

  /**
   Writing a translation leaves the row as `InsertCellInRow` left it, except that the cell at the
   target reference now holds table index `index` as a shared-string cell.
   */
  lemma WriteTranslationWrites(row: Row, column: string, index: nat)
    ensures var r := WriteTranslation(row, column, index);
            var placed := PlaceCell(row.cells, CellReference(column, row.rowIndex));
            && FindCell(r.cells, CellReference(column, row.rowIndex)) == Some(placed.pos)
            && r.cells[placed.pos].dataType == Some(SharedString)
            && r.cells[placed.pos].value == FormatNat(index)
            && forall i :: 0 <= i < |r.cells| && i != placed.pos ==> r.cells[i] == placed.cells[i]
  {
    var reference := CellReference(column, row.rowIndex);
    var placed := PlaceCell(row.cells, reference);
    PlaceCellPlaces(row.cells, reference);
    var cells := WriteTranslation(row, column, index).cells;
    assert forall i :: 0 <= i < |cells| ==> cells[i].reference == placed.cells[i].reference;
    var q := FindCell(cells, reference).value;
    assert !(q < placed.pos) && !(placed.pos < q);
  }

  datatype Status = Completed | Aborted(fault: Fault)

  /** The rows of a sheet and the shared-string table after a walk, and how the walk ended. */
  datatype Outcome = Outcome(rows: seq<Row>, items: seq<string>, status: Status)

  /** What the walk does with one row: carry on with the row and table it leaves, or stop. */
  datatype Step = Continue(row: Row, items: seq<string>) | Stop(status: Status)

  /** The row is to be translated against this table: its source text is there and not marked as done elsewhere. */
  predicate Eligible(row: Row, items: seq<string>) {
    row.cells != [] && SourceText(row, items).Ok? && SourceText(row, items).value.Some?
  }

  /**
   One row of the walk of `TranslateFile`: a skipped header is passed over, an empty row ends
   the walk, a failed cell lookup aborts it, an ineligible row is left as it is, and an eligible
   row gets the translation of its source text in the target column.
   */
  function StepRow(row: Row, items: seq<string>, header: bool, job: Job,
                   translate: Request -> string): (s: Step)
    ensures header ==> s == Continue(row, items)
    ensures !header && row.cells == [] ==> s == Stop(Completed)
    ensures s.Stop? ==> !header && (s.status == Completed <==> row.cells == [])
    ensures s.Continue? ==> items <= s.items && s.row.rowIndex == row.rowIndex
    ensures s.Continue? && (s.row != row || s.items != items) ==> !header && Eligible(row, items)
    ensures !header && row.cells != [] ==> (s.Stop? <==> SourceText(row, items).Err?)
    ensures !header && row.cells != [] && SourceText(row, items).Err? ==> s == Stop(Aborted(SourceText(row, items).error))
    ensures !header && row.cells != [] && SourceText(row, items) == Ok(None) ==> s == Continue(row, items)
  {
    if header then Continue(row, items)
    else if row.cells == [] then Stop(Completed)
    else match SourceText(row, items)
      case Err(f) => Stop(Aborted(f))
      case Ok(None) => Continue(row, items)
      case Ok(Some(text)) =>
        var inserted := FindOrAppend(items, translate(RequestFor(text, job)));
        Continue(WriteTranslation(row, job.targetColumn, inserted.index), inserted.items)
  }

  /**
   `after` is the row `before` once the cell at `reference` has been written: when `before` had
   that cell, it stays in its place and every other cell is kept; otherwise the cell is new, and
   removing it gives back `before`.
   */
  predicate KeepsOtherCells(before: seq<Cell>, after: seq<Cell>, reference: string) {
    && FindCell(after, reference).Some?
    && var q := FindCell(after, reference).value;
       match FindCell(before, reference)
       case Some(p) =>
         p == q && |after| == |before| && forall i :: 0 <= i < |before| && i != p ==> after[i] == before[i]
       case None => after[..q] + after[q + 1..] == before
  }

  /** Writing a translation keeps every other cell of the row, in order. */
  lemma WriteTranslationKeepsOtherCells(row: Row, column: string, index: nat)
    ensures KeepsOtherCells(row.cells, WriteTranslation(row, column, index).cells, CellReference(column, row.rowIndex))
  {
    var reference := CellReference(column, row.rowIndex);
    var written := WriteTranslation(row, column, index);
    var placed := PlaceCell(row.cells, reference);
    WriteTranslationWrites(row, column, index);
    PlaceCellPlaces(row.cells, reference);
    var pos := placed.pos;
    if FindCell(row.cells, reference).None? {
      assert written.cells[..pos] == placed.cells[..pos];
      assert written.cells[pos + 1..] == placed.cells[pos + 1..];
    }
  }

  /**
   An eligible row is written with the translation of its text: the table grows by that
   translation unless it is already there, the target cell reads as the translation, and every
   other cell of the row is kept in order.
   */
  lemma StepRowTranslates(row: Row, items: seq<string>, job: Job, translate: Request -> string)
    requires Eligible(row, items)
    requires |StepRow(row, items, false, job, translate).items| <= Int32Max + 1
    ensures var s := StepRow(row, items, false, job, translate);
            var reference := CellReference(job.targetColumn, row.rowIndex);
            var translated := translate(RequestFor(SourceText(row, items).value.value, job));
            && s.Continue?
            && s.items == (if translated in items then items else items + [translated])
            && KeepsOtherCells(row.cells, s.row.cells, reference)
            && GetCellValue(s.row.cells[FindCell(s.row.cells, reference).value], s.items) == Ok(translated)
  {
    var text := SourceText(row, items).value.value;
    var inserted := FindOrAppend(items, translate(RequestFor(text, job)));
    var reference := CellReference(job.targetColumn, row.rowIndex);
    var written := WriteTranslation(row, job.targetColumn, inserted.index);
    WriteTranslationKeepsOtherCells(row, job.targetColumn, inserted.index);
    var pos := FindCell(written.cells, reference).value;
    WrittenCellReadsBack(written.cells[pos], inserted.items, inserted.index);
    assert written.cells[pos] == written.cells[pos].(dataType := Some(SharedString), value := FormatNat(inserted.index));
  }

  // ---- the row walk of one worksheet ----

  /** What one row does to the walk, given the table so far and whether the row is the skipped header. */
  type Stepper = (Row, seq<string>, bool) -> Step

  /** The row step of `TranslateFile`. */
  function RowStep(job: Job, translate: Request -> string): Stepper {
    (row, items, header) => StepRow(row, items, header, job, translate)
  }

  /**
   What the walk relies on from a step: an empty row other than the header ends the walk, and
   only such a row does so without a fault; a step that carries on only appends to the table.
   */
  predicate StepFollowsRules(s: Step, row: Row, items: seq<string>, header: bool) {
    && (!header && row.cells == [] ==> s == Stop(Completed))
    && (s == Stop(Completed) ==> !header && row.cells == [])
    && (s.Continue? ==> items <= s.items)
  }

  ghost predicate StepRules(step: Stepper) {
    forall row, items, header :: StepFollowsRules(step(row, items, header), row, items, header)
  }

  lemma RowStepFollowsRules(job: Job, translate: Request -> string)
    ensures StepRules(RowStep(job, translate))
  {
    forall row, items, header
      ensures StepFollowsRules(RowStep(job, translate)(row, items, header), row, items, header)
    {
      var s := StepRow(row, items, header, job, translate);
      assert RowStep(job, translate)(row, items, header) == s;
    }
  }

  /** Row `i` is the header that `TranslateFile` passes over. */
  predicate SkippedHeader(skipHeader: bool, i: nat) {
    i == 0 && skipHeader
  }

  /**
   The row walk of `TranslateFile` over one worksheet from row `i` on, with `rows` and `items`
   as the rows before it have left them: a stop leaves row `i` and the rows after it as they are.
   */
  function Walk(rows: seq<Row>, i: nat, items: seq<string>, skipHeader: bool, step: Stepper): (o: Outcome)
    ensures |o.rows| == |rows|
    decreases |rows| - i
  {
    if i >= |rows| then Outcome(rows, items, Completed)
    else match step(rows[i], items, SkippedHeader(skipHeader, i))
      case Stop(status) => Outcome(rows, items, status)
      case Continue(row, next) => Walk(rows[i := row], i + 1, next, skipHeader, step)
  }

  /** The walk of a whole worksheet by `TranslateFile`. */
  function SheetWalk(rows: seq<Row>, items: seq<string>, job: Job, translate: Request -> string): (o: Outcome)
    ensures |o.rows| == |rows| && items <= o.items
  {
    RowStepFollowsRules(job, translate);
    WalkExtends(rows, 0, items, job.skipHeader, RowStep(job, translate));
    Walk(rows, 0, items, job.skipHeader, RowStep(job, translate))
  }

  /** The walk from row `i` gets to row `j`: no row from `i` to before `j`, other than the skipped header, is empty. */
  ghost predicate Reaches(rows: seq<Row>, skipHeader: bool, i: nat, j: nat) {
    forall m :: i <= m < j && m < |rows| ==> SkippedHeader(skipHeader, m) || rows[m].cells != []
  }

  /** The table when the walk from row `i` gets to row `j`, or `None` when it stops before. */
  ghost function TableAt(rows: seq<Row>, i: nat, items: seq<string>, skipHeader: bool, step: Stepper, j: nat)
    : Option<seq<string>>
    decreases |rows| - i
  {
    if j < i || |rows| <= i then None
    else if j == i then Some(items)
    else match step(rows[i], items, SkippedHeader(skipHeader, i))
      case Stop(_) => None
      case Continue(row, next) => TableAt(rows[i := row], i + 1, next, skipHeader, step, j)
  }

  /**
   Row `j` after the walk: a row the walk does not get to is left as it is; the row it gets to
   is stepped once with the table of that moment, which the rest of the walk only extends, and
   the walk keeps what that step made of it (or stops there).
   */
  lemma {:induction false} WalkAt(rows: seq<Row>, i: nat, items: seq<string>, skipHeader: bool,
                                  step: Stepper, j: nat)
    requires StepRules(step) && j < |rows|
    ensures var o := Walk(rows, i, items, skipHeader, step);
            match TableAt(rows, i, items, skipHeader, step, j)
            case None => o.rows[j] == rows[j]
            case Some(t) =>
              && i <= j && Reaches(rows, skipHeader, i, j) && t <= o.items
              && match step(rows[j], t, SkippedHeader(skipHeader, j))
                 case Stop(status) => o.rows[j] == rows[j] && o.status == status
                 case Continue(row, next) => o.rows[j] == row && next <= o.items
    decreases |rows| - i
  {
    if i < |rows| {
      var s := step(rows[i], items, SkippedHeader(skipHeader, i));
      assert StepFollowsRules(s, rows[i], items, SkippedHeader(skipHeader, i));
      if s.Continue? {
        var next := rows[i := s.row];
        WalkAt(next, i + 1, s.items, skipHeader, step, j);
        if j == i {
          WalkAt(next, i + 1, s.items, skipHeader, step, i);
          WalkExtends(next, i + 1, s.items, skipHeader, step);
        } else if i < j {
          assert next[j] == rows[j];
          if TableAt(rows, i, items, skipHeader, step, j).Some? {
            forall m | i <= m < j && m < |rows| ensures SkippedHeader(skipHeader, m) || rows[m].cells != [] {
              assert m == i || next[m] == rows[m];
            }
          }
        }
      }
    }
  }

  /** The walk only appends to the shared-string table: every index keeps its string. */
  lemma {:induction false} WalkExtends(rows: seq<Row>, i: nat, items: seq<string>, skipHeader: bool, step: Stepper)
    requires StepRules(step)
    ensures items <= Walk(rows, i, items, skipHeader, step).items
    decreases |rows| - i
  {
    if i < |rows| {
      var s := step(rows[i], items, SkippedHeader(skipHeader, i));
      assert StepFollowsRules(s, rows[i], items, SkippedHeader(skipHeader, i));
      if s.Continue? {
        WalkExtends(rows[i := s.row], i + 1, s.items, skipHeader, step);
      }
    }
  }

  /** A completed walk gets to every row it reaches: only an empty row ends it without a fault. */
  lemma {:induction false} WalkGetsTo(rows: seq<Row>, i: nat, items: seq<string>, skipHeader: bool,
                                      step: Stepper, j: nat)
    requires StepRules(step) && i <= j < |rows| && Reaches(rows, skipHeader, i, j)
    requires Walk(rows, i, items, skipHeader, step).status == Completed
    ensures TableAt(rows, i, items, skipHeader, step, j).Some?
    decreases |rows| - i
  {
    if i < j {
      var s := step(rows[i], items, SkippedHeader(skipHeader, i));
      assert StepFollowsRules(s, rows[i], items, SkippedHeader(skipHeader, i));
      var next := rows[i := s.row];
      forall m | i + 1 <= m < j && m < |rows| ensures SkippedHeader(skipHeader, m) || next[m].cells != [] {
        assert next[m] == rows[m];
      }
      WalkGetsTo(next, i + 1, s.items, skipHeader, step, j);
    }
  }

  /**
   A row the walk of a sheet changes is one it reached, not the skipped header, and eligible:
   its first cell is not blank and its third cell does not carry the marker.
   */
  lemma WalkChangesOnlyEligibleRows(rows: seq<Row>, items: seq<string>, job: Job,
                                    translate: Request -> string, j: nat)
    requires j < |rows| && SheetWalk(rows, items, job, translate).rows[j] != rows[j]
    ensures Reaches(rows, job.skipHeader, 0, j) && !SkippedHeader(job.skipHeader, j)
    ensures Eligible(rows[j], SheetWalk(rows, items, job, translate).items)
  {
    var step := RowStep(job, translate);
    RowStepFollowsRules(job, translate);
    WalkAt(rows, 0, items, job.skipHeader, step, j);
    var t := TableAt(rows, 0, items, job.skipHeader, step, j).value;
    var s := StepRow(rows[j], t, SkippedHeader(job.skipHeader, j), job, translate);
    assert step(rows[j], t, SkippedHeader(job.skipHeader, j)) == s;
    SourceTextExtends(rows[j], t, SheetWalk(rows, items, job, translate).items);
  }

  /**
   When the walk of a sheet completes, every row it reaches that is eligible (and not the
   skipped header) has a cell at the target reference whose text is the translation of the
   row's source text, and keeps its other cells in order.
   */
  lemma WalkTranslatesEligibleRows(rows: seq<Row>, items: seq<string>, job: Job,
                                   translate: Request -> string, j: nat)
    requires j < |rows| && Reaches(rows, job.skipHeader, 0, j) && !SkippedHeader(job.skipHeader, j)
    requires var o := SheetWalk(rows, items, job, translate);
             o.status == Completed && |o.items| <= Int32Max + 1 && Eligible(rows[j], o.items)
    ensures var o := SheetWalk(rows, items, job, translate);
            var text := SourceText(rows[j], o.items).value.value;
            var reference := CellReference(job.targetColumn, rows[j].rowIndex);
            && KeepsOtherCells(rows[j].cells, o.rows[j].cells, reference)
            && GetCellValue(o.rows[j].cells[FindCell(o.rows[j].cells, reference).value], o.items)
               == Ok(translate(RequestFor(text, job)))
  {
    var o := SheetWalk(rows, items, job, translate);
    var step := RowStep(job, translate);
    RowStepFollowsRules(job, translate);
    WalkGetsTo(rows, 0, items, job.skipHeader, step, j);
    WalkAt(rows, 0, items, job.skipHeader, step, j);
    var t := TableAt(rows, 0, items, job.skipHeader, step, j).value;
    var s := StepRow(rows[j], t, false, job, translate);
    assert step(rows[j], t, false) == s;
    assert SourceText(rows[j], t).Ok?;
    SourceTextExtends(rows[j], t, o.items);
    StepRowTranslates(rows[j], t, job, translate);
    var pos := FindCell(s.row.cells, CellReference(job.targetColumn, rows[j].rowIndex)).value;
    GetCellValueExtends(s.row.cells[pos], s.items, o.items);
  }

  /** The walk of a sheet ends at its first empty row: from there on no row changes. */
  lemma WalkStopsAtEmptyRow(rows: seq<Row>, items: seq<string>, job: Job, translate: Request -> string, k: nat)
    requires k < |rows| && rows[k].cells == [] && !SkippedHeader(job.skipHeader, k)
    ensures SheetWalk(rows, items, job, translate).rows[k..] == rows[k..]
  {
    var o := SheetWalk(rows, items, job, translate);
    forall j | k <= j < |rows| ensures o.rows[j] == rows[j] {
      if o.rows[j] != rows[j] {
        WalkChangesOnlyEligibleRows(rows, items, job, translate, j);
        assert false;
      }
    }
  }

  /**
   A walk that ends with a fault stopped at a row it got to: that row's step, taken with the
   table of that moment, is the fault, and the walk ends with that table.
   */
  lemma {:induction false} WalkAbortedAt(rows: seq<Row>, i: nat, items: seq<string>, skipHeader: bool,
                                         step: Stepper) returns (j: nat)
    requires Walk(rows, i, items, skipHeader, step).status.Aborted?
    ensures i <= j < |rows| && TableAt(rows, i, items, skipHeader, step, j).Some?
    ensures var o := Walk(rows, i, items, skipHeader, step);
            var t := TableAt(rows, i, items, skipHeader, step, j).value;
            step(rows[j], t, SkippedHeader(skipHeader, j)) == Stop(o.status) && o.items == t
    decreases |rows| - i
  {
    var s := step(rows[i], items, SkippedHeader(skipHeader, i));
    if s.Stop? {
      j := i;
    } else {
      var next := rows[i := s.row];
      j := WalkAbortedAt(next, i + 1, s.items, skipHeader, step);
      assert next[j] == rows[j];
    }
  }

  /**
   The walk of a sheet aborts exactly at a row it gets to, other than the skipped header and not
   empty, whose first or third cell cannot be read: here, the abort names such a row and its fault.
   */
  lemma SheetWalkAborts(rows: seq<Row>, items: seq<string>, job: Job, translate: Request -> string)
    returns (j: nat)
    requires SheetWalk(rows, items, job, translate).status.Aborted?
    ensures j < |rows| && Reaches(rows, job.skipHeader, 0, j) && !SkippedHeader(job.skipHeader, j)
    ensures rows[j].cells != []
    ensures var o := SheetWalk(rows, items, job, translate);
            SourceText(rows[j], o.items) == Err(o.status.fault)
  {
    var step := RowStep(job, translate);
    RowStepFollowsRules(job, translate);
    j := WalkAbortedAt(rows, 0, items, job.skipHeader, step);
    WalkAt(rows, 0, items, job.skipHeader, step, j);
    var t := TableAt(rows, 0, items, job.skipHeader, step, j).value;
    assert step(rows[j], t, SkippedHeader(job.skipHeader, j)) == StepRow(rows[j], t, SkippedHeader(job.skipHeader, j), job, translate);
  }

  /** The other direction: a row the walk gets to whose source text cannot be read aborts the walk with its fault. */
  lemma SheetWalkAbortsAt(rows: seq<Row>, items: seq<string>, job: Job, translate: Request -> string, j: nat)
    requires j < |rows| && !SkippedHeader(job.skipHeader, j) && rows[j].cells != []
    requires var t := TableAt(rows, 0, items, job.skipHeader, RowStep(job, translate), j);
             t.Some? && SourceText(rows[j], t.value).Err?
    ensures var t := TableAt(rows, 0, items, job.skipHeader, RowStep(job, translate), j).value;
            SheetWalk(rows, items, job, translate).status == Aborted(SourceText(rows[j], t).error)
  {
    var step := RowStep(job, translate);
    RowStepFollowsRules(job, translate);
    WalkAt(rows, 0, items, job.skipHeader, step, j);
    var t := TableAt(rows, 0, items, job.skipHeader, step, j).value;
    assert step(rows[j], t, false) == StepRow(rows[j], t, false, job, translate);
  }

  /** When the walk of a sheet completes, every non-empty row it reaches (other than the skipped header) reads without a fault. */
  lemma CompletedWalkReadsRows(rows: seq<Row>, items: seq<string>, job: Job, translate: Request -> string, j: nat)
    requires j < |rows| && Reaches(rows, job.skipHeader, 0, j) && !SkippedHeader(job.skipHeader, j)
    requires rows[j].cells != [] && SheetWalk(rows, items, job, translate).status == Completed
    ensures SourceText(rows[j], SheetWalk(rows, items, job, translate).items).Ok?
  {
    var step := RowStep(job, translate);
    RowStepFollowsRules(job, translate);
    WalkGetsTo(rows, 0, items, job.skipHeader, step, j);
    WalkAt(rows, 0, items, job.skipHeader, step, j);
    var t := TableAt(rows, 0, items, job.skipHeader, step, j).value;
    assert step(rows[j], t, false) == StepRow(rows[j], t, false, job, translate);
    SourceTextExtends(rows[j], t, SheetWalk(rows, items, job, translate).items);
  }

  /** A sheet with no eligible row other than the skipped header is left as it is, and so is the table. */
  lemma {:induction false} WalkWithoutEligibleRows(rows: seq<Row>, i: nat, items: seq<string>, job: Job,
                                                   translate: Request -> string)
    requires forall m :: i <= m < |rows| && !SkippedHeader(job.skipHeader, m) ==> !Eligible(rows[m], items)
    ensures var o := Walk(rows, i, items, job.skipHeader, RowStep(job, translate));
            o.rows == rows && o.items == items
    decreases |rows| - i
  {
    if i < |rows| {
      var s := StepRow(rows[i], items, SkippedHeader(job.skipHeader, i), job, translate);
      assert RowStep(job, translate)(rows[i], items, SkippedHeader(job.skipHeader, i)) == s;
      if s.Continue? {
        assert s.row == rows[i] && s.items == items;
        assert rows[i := s.row] == rows;
        WalkWithoutEligibleRows(rows, i + 1, items, job, translate);
      }
    }
  }

  /**
   The body of the row loop of `TranslateFile` for row `i`, once the header test is made: cell
   lookups, the call to the service, the shared-string insertion and the write to the target
   cell, in the source's order. `Some` tells the loop to stop.
   */
  method TranslateRow(sheetData: SheetData, table: SharedStringTable, i: nat, header: bool, job: Job,
                      translate: Request -> string) returns (stop: Option<Status>)
    requires i < |sheetData.rows|
    modifies sheetData, table
    ensures match StepRow(old(sheetData.rows[i]), old(table.items), header, job, translate)
            case Stop(status) =>
              stop == Some(status) && sheetData.rows == old(sheetData.rows) && table.items == old(table.items)
            case Continue(row, items) =>
              stop.None? && sheetData.rows == old(sheetData.rows)[i := row] && table.items == items
  {
    if header {
      return None;
    }
    var currentRow := sheetData.rows[i];
    if |currentRow.cells| == 0 {
      return Some(Completed);
    }
    var currentCellValue := GetCellValue(currentRow.cells[0], table.items);
    if currentCellValue.Err? {
      return Some(Aborted(currentCellValue.error));
    }
    var currentTranslatedCellValue := "";
    if |currentRow.cells| > 2 {
      var translatedCell := GetCellValue(currentRow.cells[2], table.items);
      if translatedCell.Err? {
        return Some(Aborted(translatedCell.error));
      }
      currentTranslatedCellValue := translatedCell.value;
    }
    if !(IsNullOrWhiteSpace(currentCellValue.value)
         || StartsWith(ToLower(currentTranslatedCellValue), SkipMarker)) {
      var translated := translate(RequestFor(currentCellValue.value, job));
      var index := table.InsertSharedStringItem(translated);
      var pos := InsertCellInRow(sheetData, i, job.targetColumn);
      var row := sheetData.rows[i];
      var cell := row.cells[pos];
      sheetData.rows := sheetData.rows[i := row.(cells := row.cells[pos := cell.(dataType := Some(SharedString), value := FormatNat(index))])];
    }
    return None;
  }

  /** The loop of `TranslateFile` over the rows of one worksheet, with its `isFirst` flag. */
  method TranslateSheet(sheetData: SheetData, table: SharedStringTable, job: Job,
                        translate: Request -> string) returns (status: Status)
    modifies sheetData, table
    ensures Outcome(sheetData.rows, table.items, status)
            == SheetWalk(old(sheetData.rows), old(table.items), job, translate)
  {
    ghost var walked := SheetWalk(sheetData.rows, table.items, job, translate);
    var isFirst := true;
    var i := 0;
    while i < |sheetData.rows|
      invariant i <= |sheetData.rows|
      invariant isFirst == (i == 0)
      invariant walked == Walk(sheetData.rows, i, table.items, job.skipHeader, RowStep(job, translate))
    {
      var header := false;
      if isFirst {
        isFirst := false;
        header := job.skipHeader;
      }
      var stop := TranslateRow(sheetData, table, i, header, job, translate);
      if stop.Some? {
        return stop.value;
      }
      i := i + 1;
    }
    return Completed;
  }

  // ---- the loop over the worksheets ----

  /** A `Sheet` of the workbook: its relationship id, and the sheet data of its worksheet if it has any. */
  datatype Sheet = Sheet(id: Option<string>, data: Option<SheetData>)

  /** The parts `TranslateFile` needs: the sheet list and the shared-string table. */
  datatype Workbook = Workbook(sheets: seq<Sheet>, table: SharedStringTable)

  /** The sheet data objects of a workbook. */
  ghost function SheetObjects(sheets: seq<Sheet>): set<SheetData> {
    set s | s in sheets && s.data.Some? :: s.data.value
  }

  /** The sheet data objects of the sheets the walk visits: those with an id. */
  ghost function VisitedObjects(sheets: seq<Sheet>): set<SheetData> {
    set s | s in sheets && s.id.Some? && s.data.Some? :: s.data.value
  }

  /** No two sheets share their sheet data: none is the sheet data of an earlier sheet. */
  ghost predicate DistinctSheets(sheets: seq<Sheet>) {
    forall i :: 0 <= i < |sheets| && sheets[i].data.Some? ==> sheets[i].data.value !in SheetObjects(sheets[..i])
  }

  /** The rows of a sheet the walk visits (one with an id and sheet data), or `None` for one it passes over. */
  ghost function View(sheet: Sheet): Option<seq<Row>>
    reads if sheet.data.Some? then {sheet.data.value} else {}
  {
    if sheet.id.Some? && sheet.data.Some? then Some(sheet.data.value.rows) else None
  }

  /** The views of all the sheets, in order. */
  ghost function Views(sheets: seq<Sheet>): seq<Option<seq<Row>>>
    reads SheetObjects(sheets)
  {
    seq(|sheets|, j requires 0 <= j < |sheets| reads SheetObjects(sheets) => View(sheets[j]))
  }

  /** A sequence that agrees with every sheet's view is the sequence of views. */
  lemma ViewsAre(sheets: seq<Sheet>, v: seq<Option<seq<Row>>>)
    requires |v| == |sheets| && forall j :: 0 <= j < |sheets| ==> View(sheets[j]) == v[j]
    ensures Views(sheets) == v
  {
  }

  /** The sheets' rows and the shared-string table after `TranslateFile`, and how it ended. */
  datatype BookOutcome = BookOutcome(sheets: seq<Option<seq<Row>>>, items: seq<string>, status: Status)

  /**
   `TranslateFile` over the sheets from sheet `k` on: each visited sheet is walked from its first
   row with the table the sheets before it have left, and an aborted walk leaves the later
   sheets as they are.
   */
  function WalkSheets(sheets: seq<Option<seq<Row>>>, k: nat, items: seq<string>, job: Job,
                      translate: Request -> string): (o: BookOutcome)
    ensures |o.sheets| == |sheets|
    decreases |sheets| - k
  {
    if k >= |sheets| then BookOutcome(sheets, items, Completed)
    else match sheets[k]
      case None => WalkSheets(sheets, k + 1, items, job, translate)
      case Some(rows) =>
        var o := SheetWalk(rows, items, job, translate);
        if o.status.Aborted? then BookOutcome(sheets[k := Some(o.rows)], o.items, o.status)
        else WalkSheets(sheets[k := Some(o.rows)], k + 1, o.items, job, translate)
  }

  /** The table when the walk over the sheets from sheet `k` gets to sheet `j`, or `None` when an earlier sheet aborts it. */
  ghost function SheetTableAt(sheets: seq<Option<seq<Row>>>, k: nat, items: seq<string>, job: Job,
                              translate: Request -> string, j: nat): Option<seq<string>>
    decreases |sheets| - k
  {
    if j < k || |sheets| <= k then None
    else if j == k then Some(items)
    else match sheets[k]
      case None => SheetTableAt(sheets, k + 1, items, job, translate, j)
      case Some(rows) =>
        var o := SheetWalk(rows, items, job, translate);
        if o.status.Aborted? then None
        else SheetTableAt(sheets[k := Some(o.rows)], k + 1, o.items, job, translate, j)
  }

  /** The walk over the sheets only appends to the table. */
  lemma {:induction false} WalkSheetsExtends(sheets: seq<Option<seq<Row>>>, k: nat, items: seq<string>, job: Job,
                                             translate: Request -> string)
    ensures items <= WalkSheets(sheets, k, items, job, translate).items
    decreases |sheets| - k
  {
    if k < |sheets| && sheets[k].Some? {
      var o := SheetWalk(sheets[k].value, items, job, translate);
      if !o.status.Aborted? {
        WalkSheetsExtends(sheets[k := Some(o.rows)], k + 1, o.items, job, translate);
      }
    } else if k < |sheets| {
      WalkSheetsExtends(sheets, k + 1, items, job, translate);
    }
  }

  /**
   Sheet `j` after the walk over the sheets: a sheet the walk does not get to is left as it is, a
   sheet without an id stays without one, and a visited sheet becomes the walk of its rows with
   the table the sheets before it have left, which the rest of the walk only extends; when that
   walk aborts, the whole walk ends with its fault and its table.
   */
  lemma {:induction false} WalkSheetsAt(sheets: seq<Option<seq<Row>>>, k: nat, items: seq<string>, job: Job,
                                        translate: Request -> string, j: nat)
    requires j < |sheets|
    ensures var o := WalkSheets(sheets, k, items, job, translate);
            match SheetTableAt(sheets, k, items, job, translate, j)
            case None => o.sheets[j] == sheets[j]
            case Some(t) =>
              && k <= j && t <= o.items
              && match sheets[j]
                 case None => o.sheets[j] == None
                 case Some(rows) =>
                   var w := SheetWalk(rows, t, job, translate);
                   && o.sheets[j] == Some(w.rows) && w.items <= o.items
                   && (w.status.Aborted? ==> o.status == w.status && o.items == w.items)
    decreases |sheets| - k
  {
    if k < |sheets| {
      var o := WalkSheets(sheets, k, items, job, translate);
      match sheets[k]
      case None =>
        WalkSheetsAt(sheets, k + 1, items, job, translate, j);
        if j == k {
          WalkSheetsExtends(sheets, k + 1, items, job, translate);
        }
      case Some(rows) =>
        var w := SheetWalk(rows, items, job, translate);
        if !w.status.Aborted? {
          var next := sheets[k := Some(w.rows)];
          WalkSheetsAt(next, k + 1, w.items, job, translate, j);
          if j == k {
            WalkSheetsExtends(next, k + 1, w.items, job, translate);
          } else {
            assert next[j] == sheets[j];
          }
        }
    }
  }

  /** When the walk over the sheets completes, it gets to every sheet. */
  lemma {:induction false} WalkSheetsGetsTo(sheets: seq<Option<seq<Row>>>, k: nat, items: seq<string>, job: Job,
                                            translate: Request -> string, j: nat)
    requires k <= j < |sheets| && WalkSheets(sheets, k, items, job, translate).status == Completed
    ensures SheetTableAt(sheets, k, items, job, translate, j).Some?
    decreases |sheets| - k
  {
    if k < j {
      match sheets[k]
      case None =>
        WalkSheetsGetsTo(sheets, k + 1, items, job, translate, j);
      case Some(rows) =>
        var w := SheetWalk(rows, items, job, translate);
        WalkSheetsGetsTo(sheets[k := Some(w.rows)], k + 1, w.items, job, translate, j);
    }
  }

  /**
   A walk over the sheets that ends with a fault stopped in a sheet it got to, whose walk ended
   with that fault, and left every later sheet as it was.
   */
  lemma {:induction false} WalkSheetsAbortedAt(sheets: seq<Option<seq<Row>>>, k: nat, items: seq<string>, job: Job,
                                               translate: Request -> string) returns (j: nat)
    requires WalkSheets(sheets, k, items, job, translate).status.Aborted?
    ensures k <= j < |sheets| && sheets[j].Some? && SheetTableAt(sheets, k, items, job, translate, j).Some?
    ensures var o := WalkSheets(sheets, k, items, job, translate);
            var t := SheetTableAt(sheets, k, items, job, translate, j).value;
            && SheetWalk(sheets[j].value, t, job, translate).status == o.status
            && forall l :: j < l < |sheets| ==> o.sheets[l] == sheets[l]
    decreases |sheets| - k
  {
    match sheets[k]
    case None =>
      j := WalkSheetsAbortedAt(sheets, k + 1, items, job, translate);
    case Some(rows) =>
      var w := SheetWalk(rows, items, job, translate);
      if w.status.Aborted? {
        j := k;
      } else {
        var next := sheets[k := Some(w.rows)];
        j := WalkSheetsAbortedAt(next, k + 1, w.items, job, translate);
        assert next[j] == sheets[j];
        assert forall l :: j < l < |sheets| ==> next[l] == sheets[l];
      }
  }

  /**
   One pass of the loop of `TranslateFile` over the sheets: a sheet without an id or without
   sheet data is passed over, any other is walked. `Some` tells the loop to stop.
   */
  method TranslateSheetAt(sheets: seq<Sheet>, k: nat, table: SharedStringTable, job: Job,
                          translate: Request -> string) returns (stop: Option<Status>)
    requires k < |sheets| && DistinctSheets(sheets)
    modifies VisitedObjects(sheets), table
    ensures forall j :: 0 <= j < |sheets| && j != k ==> View(sheets[j]) == old(View(sheets[j]))
    ensures forall j :: 0 <= j < |sheets| && sheets[j].id.None? && sheets[j].data.Some? ==>
                          sheets[j].data.value.rows == old(sheets[j].data.value.rows)
    ensures match old(View(sheets[k]))
            case None =>
              stop.None? && View(sheets[k]) == None && table.items == old(table.items)
            case Some(rows) =>
              var o := SheetWalk(rows, old(table.items), job, translate);
              && View(sheets[k]) == Some(o.rows)
              && table.items == o.items
              && (if o.status.Aborted? then stop == Some(o.status) else stop.None?)
  {
    var sheet := sheets[k];
    if sheet.id.None? || sheet.data.None? {
      return None;
    }
    var sheetData := sheet.data.value;
    var status := TranslateSheet(sheetData, table, job, translate);
    forall j | 0 <= j < |sheets| && j != k && sheets[j].data.Some? ensures sheets[j].data.value != sheetData {
      if j < k {
        assert sheets[j] in sheets[..k];
      } else {
        assert sheets[k] in sheets[..j];
      }
    }
    stop := if status.Aborted? then Some(status) else None;
  }

  /** The loop of `TranslateFile` over the sheets, sharing one shared-string table. */
  method TranslateSheets(sheets: seq<Sheet>, table: SharedStringTable, job: Job, translate: Request -> string)
    returns (status: Status)
    requires DistinctSheets(sheets)
    modifies VisitedObjects(sheets), table
    ensures BookOutcome(Views(sheets), table.items, status)
            == WalkSheets(old(Views(sheets)), 0, old(table.items), job, translate)
    ensures forall j :: 0 <= j < |sheets| && sheets[j].id.None? && sheets[j].data.Some? ==>
                          sheets[j].data.value.rows == old(sheets[j].data.value.rows)
  {
    ghost var current := Views(sheets);
    ghost var walked := WalkSheets(current, 0, table.items, job, translate);
    var k := 0;
    while k < |sheets|
      invariant k <= |sheets| == |current|
      invariant forall j :: 0 <= j < |sheets| ==> View(sheets[j]) == current[j]
      invariant walked == WalkSheets(current, k, table.items, job, translate)
      invariant forall j :: 0 <= j < |sheets| && sheets[j].id.None? && sheets[j].data.Some? ==>
                              sheets[j].data.value.rows == old(sheets[j].data.value.rows)
    {
      ghost var before := current;
      var stop := TranslateSheetAt(sheets, k, table, job, translate);
      current := current[k := View(sheets[k])];
      if before[k].None? {
        assert current == before;
      }
      if stop.Some? {
        ViewsAre(sheets, current);
        return stop.value;
      }
      k := k + 1;
    }
    ViewsAre(sheets, current);
    return Completed;
  }

  /**
   `TranslateFile`: nothing happens when a part it needs is missing; otherwise every sheet with
   an id and sheet data is walked in order, sharing one shared-string table.
   */
  method TranslateFile(book: Option<Workbook>, job: Job, translate: Request -> string)
    returns (status: Status)
    requires book.Some? ==> DistinctSheets(book.value.sheets)
    modifies if book.Some? then VisitedObjects(book.value.sheets) else {}
    modifies if book.Some? then {book.value.table} else {}
    ensures book.None? ==> status == Completed
    ensures book.Some? ==>
              BookOutcome(Views(book.value.sheets), book.value.table.items, status)
              == WalkSheets(old(Views(book.value.sheets)), 0, old(book.value.table.items), job, translate)
    ensures book.Some? ==>
              var sheets := book.value.sheets;
              forall j :: 0 <= j < |sheets| && sheets[j].id.None? && sheets[j].data.Some? ==>
                            sheets[j].data.value.rows == old(sheets[j].data.value.rows)
  {
    if book.None? {
      return Completed;
    }
    status := TranslateSheets(book.value.sheets, book.value.table, job, translate);
  }
}
