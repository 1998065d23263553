/**
 Small worked cases of the model: where `InsertCellInRow` puts a cell, which cells of a glossary
 row are read, and what the row walk of `TranslateFile` does with a header, an eligible row, an
 empty row and a row after it.
 */
module Scenarios {
  import opened Wrappers
  import opened Strings
  import opened SharedStrings
  import opened Cells
  import opened Translator
  import opened Glossary

  function Untyped(reference: string): Cell {
    Cell(Some(reference), None, "")
  }

  function Shared(reference: string, index: nat): Cell {
    Cell(Some(reference), Some(SharedString), FormatNat(index))
  }

  /** "B1" goes between "A1" and "C1". */
  lemma InsertsBetweenNeighbours()
    ensures PlaceCell([Untyped("A1"), Untyped("C1")], "B1") == Placement([Untyped("A1"), NewCell("B1"), Untyped("C1")], 1)
  {
    assert CompareIgnoreCase("A1", "B1") < 0;
    assert CompareIgnoreCase("C1", "B1") > 0;
  }

  /** References are compared only with references of the same length: "B1" goes after "AA1". */
  lemma LongerReferenceIsPassedOver()
    ensures PlaceCell([Untyped("AA1")], "B1") == Placement([Untyped("AA1"), NewCell("B1")], 1)
  {
  }

  /** Case is ignored: "b1" is found nowhere but sorts after "A1" and before "C1". */
  lemma LowerCaseReferenceSortsAmongUpperCase()
    ensures PlaceCell([Untyped("A1"), Untyped("C1")], "b1") == Placement([Untyped("A1"), NewCell("b1"), Untyped("C1")], 1)
  {
    assert CompareIgnoreCase("A1", "b1") < 0;
    assert CompareIgnoreCase("C1", "b1") > 0;
  }

  /** The first character decides: "BA1" sorts after "AB1", so it goes at the end. */
  lemma FirstDifferenceDecides()
    ensures PlaceCell([Untyped("AB1")], "BA1") == Placement([Untyped("AB1"), NewCell("BA1")], 1)
  {
    assert CompareIgnoreCase("AB1", "BA1") < 0;
  }

  /** A cell already at the reference is returned and the row stays as it was. */
  lemma ExistingCellIsKept()
    ensures PlaceCell([Untyped("A1"), Untyped("B1")], "B1") == Placement([Untyped("A1"), Untyped("B1")], 1)
  {
  }

  /** A three-cell glossary row reads its terms from the second and third cells. */
  lemma ThreeCellRowSkipsFirstCell()
    ensures GlossaryEntry(Row(Some(2), [Untyped("A2"), Shared("B2", 0), Shared("C2", 1)]), ["Haus", "house"])
            == Ok(("Haus", "house"))
  {
    WrittenCellReadsBack(Untyped("B2"), ["Haus", "house"], 0);
    WrittenCellReadsBack(Untyped("C2"), ["Haus", "house"], 1);
    assert Shared("B2", 0) == Untyped("B2").(dataType := Some(SharedString), value := FormatNat(0));
    assert Shared("C2", 1) == Untyped("C2").(dataType := Some(SharedString), value := FormatNat(1));
  }

  /** Two rows with the same source term make the glossary fail on the second. */
  lemma RepeatedTermFails()
    ensures AddEntries([Row(Some(1), [Shared("A1", 0), Shared("B1", 1)]),
                        Row(Some(2), [Shared("A2", 0), Shared("B2", 2)])],
                       ["Haus", "house", "home"], map[])
            == Err(DuplicateKey("Haus"))
  {
    var items := ["Haus", "house", "home"];
    var rows := [Row(Some(1), [Shared("A1", 0), Shared("B1", 1)]),
                 Row(Some(2), [Shared("A2", 0), Shared("B2", 2)])];
    TwoCellRowEntry(rows[0], "A1", "B1", 0, 1, items);
    TwoCellRowEntry(rows[1], "A2", "B2", 0, 2, items);
    assert rows[1..] == [rows[1]];
  }

  /** A two-cell row of shared-string cells gives the pair of their entries. */
  lemma TwoCellRowEntry(row: Row, a: string, b: string, i: nat, j: nat, items: seq<string>)
    requires i < |items| && j < |items| <= Int32Max && row.cells == [Shared(a, i), Shared(b, j)]
    ensures GlossaryEntry(row, items) == Ok((items[i], items[j]))
  {
    WrittenCellReadsBack(Untyped(a), items, i);
    WrittenCellReadsBack(Untyped(b), items, j);
    assert Shared(a, i) == Untyped(a).(dataType := Some(SharedString), value := FormatNat(i));
    assert Shared(b, j) == Untyped(b).(dataType := Some(SharedString), value := FormatNat(j));
  }

  /** The marker is looked for in the third cell only: a two-cell row whose second cell carries it is still translated. */
  lemma MarkerInSecondCellIsIgnored()
    ensures Eligible(Row(Some(3), [Shared("A3", 0), Shared("B3", 1)]),
                     ["World", "is already on another page - done"])
  {
    var items := ["World", "is already on another page - done"];
    WrittenCellReadsBack(Untyped("A3"), items, 0);
    assert Shared("A3", 0) == Untyped("A3").(dataType := Some(SharedString), value := FormatNat(0));
    assert !IsWhiteSpace("World"[0]);
  }

  /** A third cell whose text starts with the marker in any case keeps the row from being translated. */
  lemma MarkerInThirdCellSkipsRow()
    ensures SourceText(Row(Some(3), [Shared("A3", 0), Untyped("B3"), Shared("C3", 1)]),
                       ["World", "Is Already On Another Page"])
            == Ok(None)
  {
    var items := ["World", "Is Already On Another Page"];
    WrittenCellReadsBack(Untyped("A3"), items, 0);
    WrittenCellReadsBack(Untyped("C3"), items, 1);
    assert Shared("A3", 0) == Untyped("A3").(dataType := Some(SharedString), value := FormatNat(0));
    assert Shared("C3", 1) == Untyped("C3").(dataType := Some(SharedString), value := FormatNat(1));
    MarkerLowerCase();
  }

  /** Lower-casing the capitalised marker gives the marker. */
  lemma MarkerLowerCase()
    ensures ToLower("Is Already On Another Page") == SkipMarker
  {
    var t := ToLower("Is Already On Another Page");
    assert forall i :: 0 <= i < |t| ==> t[i] == SkipMarker[i];
  }

  /** The row to translate: its text "Haus" is read from the table, and "house" is appended and written to C2. */
  lemma TranslatedRowStep()
    ensures StepRow(Row(Some(2), [Shared("A2", 1)]), ["Quelle", "Haus"], false,
                    Job(true, "C", "de", "en", None), _ => "house")
            == Continue(Row(Some(2), [Shared("A2", 1), Shared("C2", 2)]), ["Quelle", "Haus", "house"])
  {
    var items := ["Quelle", "Haus"];
    var row := Row(Some(2), [Shared("A2", 1)]);
    WrittenCellReadsBack(Untyped("A2"), items, 1);
    assert Shared("A2", 1) == Untyped("A2").(dataType := Some(SharedString), value := FormatNat(1));
    assert !IsWhiteSpace("Haus"[0]);
    assert SourceText(row, items) == Ok(Some("Haus"));
    assert FindOrAppend(items, "house") == Insertion(items + ["house"], 2);
    assert CellReference("C", Some(2)) == "C2";
    assert PlaceCell(row.cells, "C2") == Placement([Shared("A2", 1), NewCell("C2")], 1);
  }

  /**
   A sheet made of a header, a row, an empty row and a last row, walked with the header skipped:
   only the second row is stepped, and the walk completes at the empty row with the last row as
   it was.
   */
  lemma WalkOfFourRows(header: Row, row: Row, empty: Row, last: Row, items: seq<string>,
                       job: Job, translate: Request -> string, written: Row, next: seq<string>)
    requires job.skipHeader && empty.cells == []
    requires StepRow(row, items, false, job, translate) == Continue(written, next)
    ensures SheetWalk([header, row, empty, last], items, job, translate)
            == Outcome([header, written, empty, last], next, Completed)
  {
    var step := RowStep(job, translate);
    var rows := [header, row, empty, last];
    assert step(header, items, true) == Continue(header, items);
    assert step(row, items, false) == Continue(written, next);
    assert step(empty, next, false) == Stop(Completed);
    var after := rows[1 := written];
    assert Walk(after, 2, next, true, step) == Outcome(after, next, Completed);
    assert Walk(rows, 1, items, true, step) == Walk(after, 2, next, true, step);
    assert rows[0 := header] == rows;
  }

  /**
   The header row "Quelle", a row "Haus", an empty row and a row "Haus" after it, translated into
   column C: "house" is appended to the table and written to C2, and the last row is not reached.
   */
  lemma WalkOfSmallSheet()
    ensures var job := Job(true, "C", "de", "en", None);
            var rows := [Row(Some(1), [Shared("A1", 0)]), Row(Some(2), [Shared("A2", 1)]),
                         Row(Some(3), []), Row(Some(4), [Shared("A4", 1)])];
            SheetWalk(rows, ["Quelle", "Haus"], job, _ => "house")
            == Outcome([Row(Some(1), [Shared("A1", 0)]), Row(Some(2), [Shared("A2", 1), Shared("C2", 2)]),
                        Row(Some(3), []), Row(Some(4), [Shared("A4", 1)])],
                       ["Quelle", "Haus", "house"], Completed)
  {
    TranslatedRowStep();
    WalkOfFourRows(Row(Some(1), [Shared("A1", 0)]), Row(Some(2), [Shared("A2", 1)]), Row(Some(3), []),
                   Row(Some(4), [Shared("A4", 1)]), ["Quelle", "Haus"], Job(true, "C", "de", "en", None),
                   _ => "house", Row(Some(2), [Shared("A2", 1), Shared("C2", 2)]), ["Quelle", "Haus", "house"]);
  }
}
