# DeepL Excel translator — a Dafny model of `ExcelTranslator`

`ExcelTranslator` (Translator.cs) translates a column of an Excel workbook through the DeepL
service. It walks the rows of every worksheet. For each row whose first cell holds text and is
not marked as handled elsewhere, it sends that text to the service. It stores the result once in
the workbook's shared-string table and points a cell of the target column at it, creating the
cell in order when the row has none. A second entry point, `ReadGlossaryFromExcel`, reads a
two- or three-column sheet into a glossary: a map from source term to target term.

The model keeps the source's shape:

- `Wrappers` — `Option` and `Result`. A `Result` error stands for an exception the C# code
  lets escape.
- `Strings` — the .NET string operations the code relies on:
  - `char.IsWhiteSpace`, `string.IsNullOrWhiteSpace`, `ToLower` and `StartsWith`;
  - `string.Compare(a, b, true)`;
  - `Int32.TryParse` and `int.ToString`.
- `SharedStrings` — the shared-string table as a class whose `items` field
  `InsertSharedStringItem` updates in place, and the function `FindOrAppend` that specifies it.
- `Cells` — cells and rows as values. `SheetData` is a class whose rows `InsertCellInRow`
  updates in place. `PlaceCell` is the function that specifies it. The `Cell` object the C#
  method returns is modelled by its position in the row.
- `Translator` — `GetCellValue` and `GetSharedStringItemById`, and the eligibility test of
  `TranslateFile` (`SourceText`). It also holds the row walk: `StepRow` for one row, `Walk` and
  `SheetWalk` for a sheet, and `WalkSheets` for the workbook. These specify the imperative
  methods `TranslateRow`, `TranslateSheet`, `TranslateSheets` and `TranslateFile`.
- `Glossary` — `GlossaryEntry`, the cells one glossary row gives, and `AddEntries`, the
  dictionary the rows build. `ReadGlossaryFromExcel` is the loop, proved against them.
- `Scenarios` — worked cases:
  - where a new cell goes;
  - which glossary cells are read;
  - a header, a translated row and an empty row walked end to end.

The translation service is the parameter `translate: Request -> string`. `Request` carries the
text, the two language codes, the formality (`More` for German, otherwise the default) and the
glossary id. Opening the package, finding the parts and saving are replaced by their in-memory
results: `Option<Workbook>` is `None` when a part `TranslateFile` needs is missing, and a sheet's
`data` is `None` when its worksheet has no `SheetData`.

The skip marker is read from the row's third cell (`GetItem(2)`, Translator.cs:69-75), whatever
the target column is. A two-cell row whose second cell carries the marker is still translated
(`Scenarios.MarkerInSecondCellIsIgnored`).

## Model

| member | source | states |
|---|---|---|
| SharedStrings.IndexOf | Translator.cs:146-157 | The scan finds `text` exactly when it is in the table, and then it finds its first occurrence. |
| SharedStrings.FindOrAppend | Translator.cs:138-164 | The index returned holds `text` and no earlier entry does. A present string leaves the table unchanged. An absent one is appended, at the old length. Existing entries never move. |
| SharedStrings.FindOrAppendIdempotent | Translator.cs:138-164 | Inserting the same string a second time returns the same index and does not change the table. |
| SharedStrings.FirstOccurrenceUnique | Translator.cs:149-154 | Only one position can be the first occurrence of a string, so the scan's answer is determined. |
| SharedStrings.FindOrAppendKeepsDistinct | Translator.cs:138-164 | A table without repeated strings stays without them. |
| SharedStrings.FindOrAppendOfPresent | Translator.cs:149-154 | In a table without repeats, an entry is found at its own index. |
| SharedStrings.SharedStringTable.InsertSharedStringItem | Translator.cs:138-164 | The loop's new table and returned index are those of `FindOrAppend` on the old table. |
| Cells.CellReference | Translator.cs:168 | The reference starts with the column name, and is longer than it exactly when the row has an index. |
| Cells.CellReferenceRowIndex | Translator.cs:168 | After the column name, the reference holds the row index as digits that parse back to it. |
| Cells.FindCell | Translator.cs:170-172 | Finds the first cell whose reference equals the one asked for; `None` exactly when no cell has it. |
| Cells.InsertionPoint | Translator.cs:177-188 | No cell before the point is a same-length reference sorting after the new one (ignoring case); the cell at the point, if any, is one. |
| Cells.PlaceCell | Translator.cs:166-194 | The position returned lies inside the new row. |
| Cells.PlaceCellPlaces | Translator.cs:166-194 | An existing cell is returned, with the row unchanged. Otherwise one new cell with the reference is inserted just before the first same-length cell that sorts after it, or at the end. Removing that cell gives back the original row, so the other cells keep their order. The cell returned is the one a later lookup of the reference finds. |
| Cells.SortsBeforeRest | Translator.cs:180-186 | In an ascending row, the new reference sorts no later than any same-length reference from its insertion point on. |
| Cells.PlaceCellKeepsAscending | Translator.cs:176-191 | If the row's same-length references are in ascending case-insensitive order, they still are after the insertion. The order is the ordinal order of the lower-cased references (`CompareOrder`). |
| Cells.InsertCellInRow | Translator.cs:166-194 | The reference is the column name followed by the row index. Only row `k` changes, and it becomes what `PlaceCell` says; the position returned is `PlaceCell`'s. |
| Strings.BlankConcat | Translator.cs:75 | `IsNullOrWhiteSpace` of text made of two parts holds exactly when it holds for both parts. |
| Strings.StartsWithSplits | Translator.cs:75 | `StartsWith` holds exactly when the text is the prefix followed by the rest of the text. |
| Strings.LowerKeepsPrefix | Translator.cs:75 | Lower-casing a text that starts with a prefix gives a text that starts with the lower-cased prefix, so a third cell starting with the marker in any casing is caught. |
| Strings.ToLower | Translator.cs:75 | Same length, and each character is folded to lower case. |
| Strings.CompareIgnoreCase | Translator.cs:182 | The comparison is negative, zero or positive. Which one is fixed by `CompareOrder`: the ordinal order of the lower-cased texts. |
| Strings.OrdinalLessStep | Translator.cs:182 | Ordinal order is decided by the first characters when they differ, and by the rest of the texts when they agree. |
| Strings.CompareNegativeIff | Translator.cs:182 | The comparison is negative exactly when the lower-cased first text sorts first in ordinal order. It differs first at a character with a smaller code, or it is a proper prefix. |
| Strings.CompareOrder | Translator.cs:182 | The comparison is negative exactly when the lower-cased `a` sorts before the lower-cased `b` in ordinal order, and positive exactly when it sorts after. |
| Strings.CompareAntisymmetric | Translator.cs:182 | Swapping the operands negates the comparison. |
| Strings.CompareTransitive | Translator.cs:182 | "Sorts no later than" is transitive. |
| Strings.CompareZeroIffSameLower | Translator.cs:182 | Two strings compare equal exactly when their lower-case forms are equal. |
| Strings.ParseInt32 | Translator.cs:109-111 | A successful parse yields a value in the 32-bit range, from text that holds at least one digit. |
| Strings.ParseInt32Value | Translator.cs:109-111 | White space, an optional `+` or `-`, a non-empty run of digits and white space parse as the signed value of the digits when it fits in 32 bits; otherwise the parse fails. |
| Strings.ParsedTextForm | Translator.cs:109-111 | Every text that parses has that form, and its value is the signed value of its digits. |
| Strings.FormatNat | Translator.cs:91 | The text of a non-negative number is a non-empty run of digits whose value is the number, with no leading zero. |
| Strings.ParseFormatRoundTrip | Translator.cs:91 | A 32-bit index written with `ToString` parses back to the same index. |
| Translator.GetSharedStringItemById | Translator.cs:133-136 | The entry at `id` when it lies inside the table; otherwise the failure `ElementAt` throws. |
| Translator.GetCellValue | Translator.cs:102-131 | A cell that is not a shared-string cell reads as "", and so does a shared-string cell whose text does not parse. A shared-string cell whose text parses as `id` reads as table entry `id` when `id` lies inside the table, and fails with the out-of-range error otherwise. A non-empty result is an entry of the table. |
| Translator.GetCellValueExtends | Translator.cs:102-131 | A cell that reads successfully against a table reads the same after the table has grown. |
| Translator.WrittenCellReadsBack | Translator.cs:91-92 | A cell written as shared string with index `i` reads back as table entry `i`. |
| Translator.SourceText | Translator.cs:66-75 | Fails exactly when reading the first cell, or the third cell when present, fails. Otherwise it gives the first cell's text exactly when that text is not blank and the lower-cased third cell does not start with the marker. |
| Translator.SourceTextExtends | Translator.cs:66-75 | Eligibility decided against a table stays the same once the table has grown. |
| Translator.RequestFor | Translator.cs:77-84 | The request carries the cell's text, both language codes and the glossary id. Its formality is `More` exactly when the target language is "de". |
| Translator.WriteTranslation | Translator.cs:88-92 | Writing a translation keeps the row's index. |
| Translator.WriteTranslationWrites | Translator.cs:88-92 | The cell at the target reference is the one `InsertCellInRow` placed, now a shared-string cell holding the index. Every other cell is as `InsertCellInRow` left it. |
| Translator.StepRow | Translator.cs:53-95 | The skipped header passes unchanged. An empty row stops the walk without a fault, and it is the only row that does. Any other row aborts exactly when reading its first or third cell fails, with that fault. A readable row that is not eligible passes unchanged, with the table unchanged. A row that carries on only appends to the table. A step that changes the row or the table is on an eligible row. |
| Translator.WriteTranslationKeepsOtherCells | Translator.cs:88-92 | Writing a translation keeps every other cell of the row, in order. |
| Translator.StepRowTranslates | Translator.cs:75-92 | An eligible row comes out with a cell at the target reference that reads as the translation of its source text. Every other cell of the row is kept in order, including the source and marker cells. The table grows by exactly the translation, or not at all when it is already present. |
| Translator.RowStepFollowsRules | Translator.cs:53-95 | The row step keeps the rules the walk lemmas rely on: only a non-header empty row stops without a fault, and carrying on only extends the table. |
| Translator.SheetWalk | Translator.cs:52-96 | The walk of a sheet from its first row keeps the number of rows and only appends to the table. What it does to each row is stated by `WalkAt`, `WalkChangesOnlyEligibleRows`, `WalkTranslatesEligibleRows` and the abort lemmas. |
| Translator.Walk | Translator.cs:53-96 | The walk keeps the number of rows. |
| Translator.WalkAt | Translator.cs:53-96 | A row the walk never reaches is unchanged. The row it reaches is stepped once, with the table of that moment. That row ends up as the step made it, and the rest of the walk only extends the table. |
| Translator.WalkExtends | Translator.cs:87 | The walk only appends to the shared-string table, so every index keeps its string. |
| Translator.WalkGetsTo | Translator.cs:64-65 | A walk that completes reaches every row not preceded by an empty row. |
| Translator.WalkChangesOnlyEligibleRows | Translator.cs:52-75 | A row the walk changes was reached, is not the skipped header, and is eligible. |
| Translator.WalkTranslatesEligibleRows | Translator.cs:52-92 | After a completed walk, every reached eligible row has a target cell that reads as the translation of its text, and keeps its other cells in order. |
| Translator.WalkStopsAtEmptyRow | Translator.cs:64-65 | From the first empty row (other than the skipped header) on, no row changes. |
| Translator.WalkAbortedAt | Translator.cs:53-96 | A walk that ends with a fault stopped at a row it reached. That row's step, taken with the table of that moment, is the fault, and the walk ends with that table. |
| Translator.SheetWalkAborts | Translator.cs:64-73 | A sheet walk that aborts names a reached, non-empty row other than the skipped header whose source text fails to read with that fault. |
| Translator.SheetWalkAbortsAt | Translator.cs:64-73 | Conversely, a reached, non-empty row other than the skipped header whose source text fails to read aborts the walk with that fault. |
| Translator.CompletedWalkReadsRows | Translator.cs:64-73 | After a completed walk, every reached non-empty row other than the skipped header reads without a fault. |
| Translator.WalkWithoutEligibleRows | Translator.cs:52-75 | A sheet with no eligible row other than the skipped header is left as it is, and so is the table. |
| Translator.TranslateRow | Translator.cs:64-95 | The row body is `StepRow`: on a stop nothing changes; otherwise row `i` and the table become what the step gives. |
| Translator.TranslateSheet | Translator.cs:52-96 | The loop with its `isFirst` flag leaves the rows, the table and the status that `SheetWalk` gives. |
| Translator.WalkSheets | Translator.cs:35-98 | The workbook walk keeps the number of sheets. |
| Translator.WalkSheetsExtends | Translator.cs:35-98 | The walk over the sheets only appends to the table. |
| Translator.WalkSheetsAt | Translator.cs:35-98 | A sheet the walk does not get to is unchanged, and a passed-over sheet stays passed over. A visited sheet becomes the walk of its rows with the table the earlier sheets left, which the rest of the walk only extends. When that walk aborts, the whole walk ends with its fault and its table. |
| Translator.WalkSheetsGetsTo | Translator.cs:35-98 | A walk over the sheets that completes gets to every sheet. |
| Translator.WalkSheetsAbortedAt | Translator.cs:35-98 | A walk over the sheets that aborts stopped in a sheet it got to, whose own walk aborted with that fault. Every later sheet is left as it was. |
| Translator.TranslateSheetAt | Translator.cs:40-96 | A sheet without an id or without sheet data is passed over. Any other is walked with the current table. No other sheet changes, and the rows of a sheet without an id keep their contents. Only the sheet data of sheets with an id may be modified. |
| Translator.TranslateSheets | Translator.cs:35-98 | The sheets loop leaves the sheets, the table and the status that `WalkSheets` gives. The rows of a sheet without an id keep their contents. |
| Translator.TranslateFile | Translator.cs:27-100 | Nothing happens when a needed part is missing. Otherwise the result is `WalkSheets` over the sheets with the one shared-string table, and the rows of a sheet without an id keep their contents. |
| Translator.ViewsAre | Translator.cs:35-98 | A sequence that agrees with every sheet's rows is the sequence of their rows. |
| Glossary.SourceColumn | Translator.cs:211-217 | The source cell is the second exactly for a three-cell row, otherwise the first. In a row of at least two cells, it and the cell after it exist. |
| Glossary.GlossaryEntry | Translator.cs:211-218 | A row with fewer than two cells fails as `ElementAt` does. Otherwise the entry pairs the texts of the cells at the source column and the one after it: cells 1 and 2 of a three-cell row, cells 0 and 1 of any other. It fails exactly when reading one of them fails. |
| Glossary.AddEntries | Translator.cs:206-219 | The `Dictionary.Add` loop: only a non-empty list of rows can fail, and a successful read keeps every starting key. Success and contents are stated by `AddEntriesOkIff` and `AddEntriesContents`. |
| Glossary.AddEntriesOkIff | Translator.cs:206-219 | Reading succeeds exactly when every row gives an entry and no source term repeats or is already present. |
| Glossary.AddEntriesContents | Translator.cs:206-219 | A glossary that was read keeps the entries it started with. It maps each row's source term to its target term and has one new key per row. |
| Glossary.AddEntriesFrom | Translator.cs:206-219 | Adding the rows from `i` on adds row `i`'s entry first. A repeated source term fails as `Dictionary.Add` does. |
| Glossary.EntryRows | Translator.cs:206 | With a header the first row is skipped, otherwise every row gives an entry. |
| Glossary.ReadGlossaryFromExcel | Translator.cs:196-223 | No entries when a part is missing. A failure when the workbook has no sheet data. Otherwise the loop's result is `AddEntries` over the rows after the optional header. |
| Scenarios.InsertsBetweenNeighbours | Translator.cs:176-192 | "B1" is inserted between "A1" and "C1". |
| Scenarios.LongerReferenceIsPassedOver | Translator.cs:180 | A reference of another length is never compared, so "B1" goes after "AA1". |
| Scenarios.LowerCaseReferenceSortsAmongUpperCase | Translator.cs:182 | Case is ignored when ordering: "b1" goes between "A1" and "C1". |
| Scenarios.FirstDifferenceDecides | Translator.cs:180-192 | "BA1" sorts after "AB1" at their first character, so it is appended after "AB1". |
| Scenarios.ExistingCellIsKept | Translator.cs:170-173 | An existing "B1" is returned and the row is unchanged. |
| Scenarios.ThreeCellRowSkipsFirstCell | Translator.cs:211-217 | A three-cell glossary row takes its terms from its second and third cells. |
| Scenarios.TwoCellRowEntry | Translator.cs:211-212 | A two-cell row of shared-string cells gives the pair of their entries. |
| Scenarios.RepeatedTermFails | Translator.cs:218 | A second row with the same source term makes reading the glossary fail. |
| Scenarios.MarkerInSecondCellIsIgnored | Translator.cs:69-75 | A two-cell row whose second cell carries the marker is still eligible. |
| Scenarios.MarkerInThirdCellSkipsRow | Translator.cs:69-75 | A third cell starting with the marker, in any case, keeps the row from being translated. |
| Scenarios.MarkerLowerCase | Translator.cs:75 | Lower-casing the capitalised marker gives the marker. |
| Scenarios.TranslatedRowStep | Translator.cs:64-92 | The row "Haus" is translated: "house" is appended to the table at index 2 and written to a new cell C2. |
| Scenarios.WalkOfFourRows | Translator.cs:52-65 | In a header, row, empty row, last row sheet with the header skipped, only the second row is stepped. The walk completes at the empty row and leaves the last row as it was. |
| Scenarios.WalkOfSmallSheet | Translator.cs:52-95 | Walking a concrete four-row sheet translates only the second row. |

## Left out

- The DeepL client is not modelled: `TranslateTextAsync`, `CreateGlossaryAsync` and the construction of `Translator`. Translation is the total function `translate`, so a failing or throwing service call is not modelled.
- Package handling is not modelled. That covers `SpreadsheetDocument.Open`, disposal, `worksheet.Save()` and `SharedStringTable.Save()`. The model works on the in-memory rows and table. A failure of `GetPartById` (Translator.cs:42) is not modelled: every sheet with an id is taken to have its worksheet part. The `(WorksheetPart)` cast at Translator.cs:42 throws `InvalidCastException` when a sheet's part is a chart sheet, and that ends the whole run. The model only passes a sheet over or walks it, so this failure is not modelled.
- `ReadGlossaryFromExcel` takes "the first worksheet part" (Translator.cs:204) as given (`GlossaryBook.firstSheet`). Which part the package lists first is not modelled. A workbook without worksheet parts is folded into the missing-sheet-data failure.
- Console output and cursor positioning (Translator.cs:47, 94, 208-210, 220) are left out.
- `async`/`await` is modelled as running in order.
- `ToLower()`, `StartsWith(string)` (Translator.cs:75) and `string.Compare(a, b, true)` (Translator.cs:182) are culture-sensitive in .NET. The model uses ASCII case folding, an ordinal prefix test and ordinal comparison of the folded characters.
- `IsNullOrWhiteSpace` is not culture-sensitive. It uses `char.IsWhiteSpace`, which the model gives as its fixed list of code points.
- .NET `Length` (Translator.cs:180) counts UTF-16 code units. The model counts the characters of a `string`, so text outside the Basic Multilingual Plane is measured differently.
- `Int32.TryParse` is modelled for NumberStyles.Integer with invariant digits. Trailing NUL characters and culture-specific signs are not modelled.
- A part without a `SharedStringTable` root is modelled as an empty table. `InsertSharedStringItem` creates the root (Translator.cs:140-144), but reading a shared-string cell before that dereferences null in `GetSharedStringItemById` (Translator.cs:135) and throws `NullReferenceException`. The model reports `IndexOutOfRange` there.
- A shared-string item is modelled by its text. Rich-text runs, phonetic parts and the fallback from `Text` to `InnerText` to `InnerXml` (Translator.cs:115-126) all read as that text.
- A cell's `InnerText` is modelled as its `CellValue` text. A cell's child elements other than its value are not modelled.
- A row is modelled by its cells. `ChildElements` of a row other than cells (extension lists) are not modelled.
- The `Cell` object `InsertCellInRow` returns is modelled by its position. The later write through it becomes an update of that position.
- Cells.InsertCellInRow: `columnName + row.RowIndex` (Translator.cs:168) uses the row's `r` attribute as the text it was written with. The model writes the row index as `FormatNat` of a `nat`, so an attribute written with leading zeros or a sign is not modelled.
- SharedStrings.FindOrAppend: the `int i` counter (Translator.cs:146-163) wraps after `Int32.MaxValue` entries. The model's index is an unbounded `nat`.
- Translator.TranslateSheets, Translator.TranslateSheetAt, Translator.TranslateFile: each requires that no two sheets share one `SheetData` object. Two `<sheet>` elements with the same relationship id give the same worksheet part, and so the same `SheetData`. Such a workbook is not modelled.
- The validation in `GlossaryEntries`' constructor is not modelled. The result is the dictionary handed to it.
- Program.cs is not part of this model: argument checks, the file-existence test, and the call of `TranslateFile` with no arguments.
