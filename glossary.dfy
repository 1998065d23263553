/**
 `ExcelTranslator.ReadGlossaryFromExcel` (Translator.cs): every row of the first worksheet, after
 an optional header, gives one glossary entry from source term to target term.
 */
module Glossary {
  import opened Wrappers
  import opened Cells
  import opened Translator

  /** The cell holding the source term: the second of a three-cell row, otherwise the first. */
  function SourceColumn(row: Row): (k: nat)
    ensures k == 1 <==> |row.cells| == 3
    ensures |row.cells| >= 2 ==> k + 1 < |row.cells|
  {
    if |row.cells| == 3 then 1 else 0
  }

  /**
   The entry a row gives: (source term, target term) read from the cell at `SourceColumn` and
   the one after it; a row with fewer than two cells makes `ElementAt` throw.
   */
  function GlossaryEntry(row: Row, items: seq<string>): (r: Result<(string, string), Fault>)
    ensures |row.cells| < 2 ==> r == Err(IndexOutOfRange)
    ensures |row.cells| >= 2 ==> SourceColumn(row) + 1 < |row.cells|
    ensures r.Ok? <==> |row.cells| >= 2
                       && GetCellValue(row.cells[SourceColumn(row)], items).Ok?
                       && GetCellValue(row.cells[SourceColumn(row) + 1], items).Ok?
    ensures r.Ok? ==> r.value == (GetCellValue(row.cells[SourceColumn(row)], items).value,
                                  GetCellValue(row.cells[SourceColumn(row) + 1], items).value)
  {
    if |row.cells| < 2 then Err(IndexOutOfRange)
    else
      var k := SourceColumn(row);
      match GetCellValue(row.cells[k], items)
      case Err(f) => Err(f)
      case Ok(source) =>
        match GetCellValue(row.cells[k + 1], items)
        case Err(f) => Err(f)
        case Ok(target) => Ok((source, target))
  }

  /** The entries of `rows` added in order to `entries`; the first failure or repeated source term ends it. */
  function AddEntries(rows: seq<Row>, items: seq<string>, entries: map<string, string>)
    : (r: Result<map<string, string>, Fault>)
    ensures r.Err? ==> rows != []
    ensures r.Ok? ==> entries.Keys <= r.value.Keys
    decreases |rows|
  {
    if rows == [] then Ok(entries)
    else match GlossaryEntry(rows[0], items)
      case Err(f) => Err(f)
      case Ok((source, target)) =>
        if source in entries then Err(DuplicateKey(source))
        else AddEntries(rows[1..], items, entries[source := target])
  }

  /** Every row gives an entry. */
  ghost predicate EntriesOk(rows: seq<Row>, items: seq<string>) {
    forall i :: 0 <= i < |rows| ==> GlossaryEntry(rows[i], items).Ok?
  }

  /** No two rows give the same source term, and none gives a term already in `entries`. */
  ghost predicate FreshTerms(rows: seq<Row>, items: seq<string>, entries: map<string, string>)
    requires EntriesOk(rows, items)
  {
    && (forall i :: 0 <= i < |rows| ==> GlossaryEntry(rows[i], items).value.0 !in entries)
    && (forall i, j :: 0 <= i < j < |rows| ==>
          GlossaryEntry(rows[i], items).value.0 != GlossaryEntry(rows[j], items).value.0)
  }

  /** Reading the glossary succeeds exactly when every row gives an entry and no source term repeats. */
  lemma {:induction false} AddEntriesOkIff(rows: seq<Row>, items: seq<string>, entries: map<string, string>)
    ensures AddEntries(rows, items, entries).Ok? <==> EntriesOk(rows, items) && FreshTerms(rows, items, entries)
    decreases |rows|
  {
    if rows != [] {
      var e := GlossaryEntry(rows[0], items);
      var tail := rows[1..];
      assert forall i :: 0 < i < |rows| ==> rows[i] == tail[i - 1];
      if e.Ok? && e.value.0 !in entries {
        var entries' := entries[e.value.0 := e.value.1];
        AddEntriesOkIff(tail, items, entries');
        if EntriesOk(rows, items) && FreshTerms(rows, items, entries) {
          assert EntriesOk(tail, items);
          forall i | 0 <= i < |tail| ensures GlossaryEntry(tail[i], items).value.0 !in entries' {
            assert GlossaryEntry(rows[0], items).value.0 != GlossaryEntry(rows[i + 1], items).value.0;
          }
          forall i, j | 0 <= i < j < |tail|
            ensures GlossaryEntry(tail[i], items).value.0 != GlossaryEntry(tail[j], items).value.0
          {
            assert GlossaryEntry(rows[i + 1], items).value.0 != GlossaryEntry(rows[j + 1], items).value.0;
          }
        }
        if AddEntries(rows, items, entries).Ok? {
          assert EntriesOk(tail, items) && FreshTerms(tail, items, entries');
          forall i | 0 <= i < |rows| ensures GlossaryEntry(rows[i], items).Ok? {
            if i > 0 { assert GlossaryEntry(tail[i - 1], items).Ok?; }
          }
          forall i, j | 0 <= i < j < |rows|
            ensures GlossaryEntry(rows[i], items).value.0 != GlossaryEntry(rows[j], items).value.0
          {
            assert GlossaryEntry(tail[j - 1], items).value.0 !in entries';
            if i > 0 {
              assert GlossaryEntry(tail[i - 1], items).value.0 != GlossaryEntry(tail[j - 1], items).value.0;
            }
          }
          forall i | 0 <= i < |rows| ensures GlossaryEntry(rows[i], items).value.0 !in entries {
            if i > 0 { assert GlossaryEntry(tail[i - 1], items).value.0 !in entries'; }
          }
        }
      }
    }
  }

  /**
   A glossary that was read keeps the entries it started from, maps each row's source term to
   its target term, and holds nothing else: one new key per row.
   */
  lemma {:induction false} AddEntriesContents(rows: seq<Row>, items: seq<string>, entries: map<string, string>)
    requires AddEntries(rows, items, entries).Ok?
    ensures var m := AddEntries(rows, items, entries).value;
            && (forall t :: t in entries ==> t in m && m[t] == entries[t])
            && (forall i :: 0 <= i < |rows| ==>
                  GlossaryEntry(rows[i], items).Ok?
                  && GlossaryEntry(rows[i], items).value.0 in m
                  && m[GlossaryEntry(rows[i], items).value.0] == GlossaryEntry(rows[i], items).value.1)
            && |m| == |entries| + |rows|
    decreases |rows|
  {
    if rows != [] {
      var e := GlossaryEntry(rows[0], items).value;
      var tail := rows[1..];
      var entries' := entries[e.0 := e.1];
      AddEntriesContents(tail, items, entries');
      var m := AddEntries(rows, items, entries).value;
      assert m == AddEntries(tail, items, entries').value;
      assert |entries'| == |entries| + 1;
      forall i | 0 <= i < |rows|
        ensures GlossaryEntry(rows[i], items).Ok?
        ensures GlossaryEntry(rows[i], items).value.0 in m
        ensures m[GlossaryEntry(rows[i], items).value.0] == GlossaryEntry(rows[i], items).value.1
      {
        if i > 0 { assert rows[i] == tail[i - 1]; }
      }
    }
  }

  /** Adding the entries from row `i` on: the entry of row `i` first, then the rest. */
  lemma AddEntriesFrom(rows: seq<Row>, i: nat, items: seq<string>, entries: map<string, string>)
    requires i < |rows|
    ensures var e := GlossaryEntry(rows[i], items);
            AddEntries(rows[i..], items, entries) ==
              if e.Err? then Err(e.error)
              else if e.value.0 in entries then Err(DuplicateKey(e.value.0))
              else AddEntries(rows[i + 1..], items, entries[e.value.0 := e.value.1])
  {
    assert rows[i..][0] == rows[i] && rows[i..][1..] == rows[i + 1..];
  }

  /** The first worksheet of the glossary workbook (`None` when it has no sheet data) and its shared strings. */
  datatype GlossaryBook = GlossaryBook(firstSheet: Option<seq<Row>>, items: seq<string>)

  /** The rows that give entries: all of them, or all but the first when there is a header. */
  function EntryRows(rows: seq<Row>, skipHeader: bool): (r: seq<Row>)
    ensures skipHeader && rows != [] ==> r == rows[1..]
    ensures !skipHeader ==> r == rows
  {
    if skipHeader && rows != [] then rows[1..] else rows
  }

  /**
   `ReadGlossaryFromExcel`: no entries when a part it needs is missing, a failure when the
   workbook has no sheet data, and otherwise the entries of the rows after the optional header.
   */
  method ReadGlossaryFromExcel(book: Option<GlossaryBook>, skipHeader: bool)
    returns (r: Result<map<string, string>, Fault>)
    ensures book.None? ==> r == Ok(map[])
    ensures book.Some? && book.value.firstSheet.None? ==> r == Err(NoElement)
    ensures book.Some? && book.value.firstSheet.Some? ==>
              r == AddEntries(EntryRows(book.value.firstSheet.value, skipHeader), book.value.items, map[])
  {
    if book.None? {
      return Ok(map[]);
    }
    if book.value.firstSheet.None? {
      return Err(NoElement);
    }
    var rows, items := book.value.firstSheet.value, book.value.items;
    var entries: map<string, string> := map[];
    var i := if skipHeader && |rows| > 0 then 1 else 0;
    assert rows[i..] == EntryRows(rows, skipHeader);
    while i < |rows|
      invariant i <= |rows|
      invariant AddEntries(EntryRows(rows, skipHeader), items, map[]) == AddEntries(rows[i..], items, entries)
    {
      var row := rows[i];
      AddEntriesFrom(rows, i, items, entries);
      if |row.cells| < 2 {
        return Err(IndexOutOfRange);
      }
      var cell1 := row.cells[0];
      var cell2 := row.cells[1];
      if |row.cells| == 3 {
        cell1 := row.cells[1];
        cell2 := row.cells[2];
      }
      assert cell1 == row.cells[SourceColumn(row)] && cell2 == row.cells[SourceColumn(row) + 1];
      var source := GetCellValue(cell1, items);
      if source.Err? {
        return Err(source.error);
      }
      var target := GetCellValue(cell2, items);
      if target.Err? {
        return Err(target.error);
      }
      if source.value in entries {
        return Err(DuplicateKey(source.value));
      }
      entries := entries[source.value := target.value];
      i := i + 1;
    }
    return Ok(entries);
  }
}
