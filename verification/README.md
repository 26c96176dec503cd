# hectec ledger engine, in Dafny

A model of the transaction-ledger engine of hectec, a terminal editor for a
personal ledger of financial transactions. The model covers:

- **Dates** (`dates.dfy`). `SimpleDate` is parsed from `YYYY-MM-DD` or
  `YYYY.MM.DD`. Two-digit years are moved into the 2000s. The calendar
  validity check and the year range -9999..9999 are those of the `time`
  crate. Dates are displayed as `YYYY.MM.DD` and compared in calendar
  order.
- **Amounts** (`amounts.dfy`). Amounts are exact reals. The parser follows
  Rust's decimal float grammar: sign, digits, fraction, exponent. The
  formatter follows `{:.2}`: round half to even, two decimals.
- **Records** (`transactions.dfy`). The seven columns of a transaction.
  Mutating a field by column index validates the date and amount columns.
  Each column has a cell text. Equality uses a 1e-6 tolerance on the amount
  and ignores the direction. The order compares dates only.
- **Sorting** (`sorting.dfy`). `Vec::sort` on the record order, modelled as
  a stable insertion sort. It is proved sorted, a permutation, stable per
  day, and idempotent.
- **The table** (`ledger.dfy`). The file type comes from the path's
  extension. Load and save work on already-decoded data. Rows can be
  appended, deleted and committed, and cell text can be read.
- **Recommendations** (`ledger.dfy`). The autocomplete search scans earlier
  rows, nearest first. The "ghost text" shows the rest of the
  recommendation after what was typed.
- **The monthly report** (`report.dfy`). Records in `ILS` are grouped by
  (year, month) and by (direction, category). Each direction also gets a
  roll-up label. The queries read the report back: month rows, the non-zero
  categories of a month, and the category at an index.
- **The edit buffer** (`inputpage.dfy`). The cursor is counted in
  characters, and text is inserted at a byte offset. The page handles
  backspace and forward delete, reloading the buffer from the selected
  cell, stepping to the next row, committing, and deleting the selected
  row.

Strings are `seq<char>`. Where the Rust code mixes byte offsets and character
counts, UTF-8 widths are modelled explicitly (`Text.Utf8Len`). Panics are
modelled as `None`, and failing operations return `Result`.

Two behaviours of the code to note:

- Committing a cell does not re-sort the table (`Ledger.UpdateDateCanUnsort`).
- A CSV load that fails part-way leaves the records read so far in the table,
  unsorted (`Ledger.LoadCsv`).

## Model

| member | source | states |
|---|---|---|
| `Dates.ParseDate` | src/transaction.rs:33-65 | a successful parse is a real calendar date whose year lies between 100 and 9999 |
| `Dates.ParseFormatRoundTrip` | src/transaction.rs:33-71 | parsing the displayed `YYYY.MM.DD` text of any valid date with a year of at least 100 gives back that date |
| `Dates.FormatDateInjective` | src/transaction.rs:68-71 | two such dates with the same display text are the same date |
| `Dates.ParseDateAccepts` | src/transaction.rs:33-65 | a text parses to a given date exactly when, split at its separator, it has at least three pieces, the first is an `i32` year (read as 20YY below 100), the second and third are that date's month and day as `u8`, and together they name a calendar date |
| `Dates.ParseDateOfPieces` | src/transaction.rs:34-64 | once the first three pieces are numbers and the month is in range, the text is that date when it is a calendar date and is refused with the invalid-date error naming the whole input otherwise |
| `Dates.TrailingPiecesIgnored` | src/transaction.rs:34-57 | for a text that parses, or is refused because a piece's value is wrong (year, month, month range or day), appending a separator and any text that does not change the choice of separator leaves the result unchanged |
| `Dates.MissingDayIsCompletedByTrailingText` | src/transaction.rs:34-54 | a text refused for want of a day is not covered above: `2024-02` is refused, while `2024-02-05` is 5 February 2024 |
| `Dates.TwoDigitYearExample` | src/transaction.rs:41 | `23-01-05` is read as 5 January 2023 |
| `Dates.InvalidCalendarDayExample` | src/transaction.rs:56-57 | `2024-02-30` is refused with the invalid-date error that names the whole input |
| `Dates.DateCmp` | src/transaction.rs:93-103 | comparing two valid dates through their (year, day-of-year) value agrees with the lexicographic order on (year, month, day), and they compare equal exactly when they are the same date |
| `Dates.FormatDate` | src/transaction.rs:68-71 | the text of a valid date with a non-negative year is ten characters with dots at positions 4 and 7; it reads back through `Dates.ParseFormatRoundTrip` |
| `Dates.DateLeTotalPreorder` | src/transaction.rs:99-103 | "not later than" is reflexive, total and transitive, and `Less` one way is `Greater` the other way |
| `Amounts.ParseAmount` | src/transaction.rs:194 | an accepted amount, after its optional sign, starts with a digit or with `.` and a digit |
| `Amounts.FormatAmount` | src/transaction.rs:216 | the two-decimal text has at least four characters and starts with `-` exactly when the amount is negative |
| `Amounts.FormatAmountRoundTrip` | src/transaction.rs:194-216 | parsing an amount's two-decimal text gives the amount rounded to hundredths |
| `Amounts.MantissaIsShiftedDigits` | src/transaction.rs:194 | a literal `whole.fraction` denotes all its digits read as one number, divided by ten to the number of fraction digits |
| `Amounts.SignedCentsRoundTrip` | src/transaction.rs:194-195 | any signed number of hundredths written as `[-]digits.dd` parses back to its value |
| `Amounts.RoundedAmountIsClose` | src/transaction.rs:216 | rounding to hundredths moves an amount by at most half a hundredth |
| `Amounts.FormatAmountNonEmpty` | src/transaction.rs:212-217 | the two-decimal text is never empty, and it shows zero hundredths exactly when the amount is at most half a hundredth from zero |
| `Transactions.FieldAt` | src/transaction.rs:129-140 | a column index names a field exactly when it is below seven |
| `Transactions.FieldIndexRoundTrip` | src/transaction.rs:117-140 | each field's index names that field, and no other index does |
| `Transactions.NewTransaction` | src/transaction.rs:175-185 | a new record has the given date, amount zero and every text field empty |
| `Transactions.FieldText` | src/transaction.rs:209-225 | the amount cell is empty exactly when the amount is zero, and otherwise reads back as the amount rounded to hundredths; the date cell of a valid date with a year of at least 100 reads back as that date |
| `Transactions.AmountTextEmptyIffZero` | src/transaction.rs:212-218 | the amount cell is empty exactly when the amount is zero |
| `Transactions.ColumnText` | src/transaction.rs:227-229 | a column has text exactly when its index is below seven, and the text is that field's cell text |
| `Transactions.MutateField` | src/transaction.rs:187-207 | fails exactly on an unparsable date in column 0 or an unparsable number in column 1, with an error that starts ` failed to parse as `; an unknown column changes nothing; otherwise only the chosen field changes, text fields take the input verbatim, and date and amount take the parsed value |
| `Transactions.MutateFieldErrorMentionsParse` | src/transaction.rs:192-196 | every error contains `failed to parse` |
| `Transactions.RewriteOwnText` | src/transaction.rs:187-225 | writing any cell's own text back into it, amount excepted, leaves a valid record unchanged |
| `Transactions.RewriteOwnAmountText` | src/transaction.rs:194-218 | writing the amount cell's text back rounds a non-zero amount to hundredths, while the empty text of a zero amount is refused as an empty float |
| `Transactions.TransactionEq` | src/transaction.rs:241-251 | records equal up to the amount tolerance compare equal in the record order, and every record equals itself |
| `Transactions.TransactionCmp` | src/transaction.rs:255-265 | records of valid dates compare in the calendar order of their dates, and compare equal exactly when their dates are the same |
| `Transactions.TransactionEqProperties` | src/transaction.rs:241-265 | equal records compare equal by date; equality ignores the direction, is symmetric and is reflexive |
| `Transactions.TransactionEqIsCoarserThanOrder` | src/transaction.rs:241-265 | records of the same date need not be equal, and the 1e-6 tolerance makes equality intransitive |
| `Sorting.SortByDate` | src/transaction.rs:451-456 | the sorted records are a permutation of the input with non-decreasing dates |
| `Sorting.SortByDateStable` | src/transaction.rs:454 | the records of any one day keep their relative order |
| `Sorting.SortIdempotent` | src/transaction.rs:479-480 | sorting records that are already sorted leaves them unchanged |
| `Ledger.FileTypeOf` | src/transaction.rs:274-282 | the type is JSON exactly for extension `json` and CSV exactly for extension `csv`, and unknown otherwise, including when there is no file name or no extension |
| `Ledger.FileTypeOfPath` | src/transaction.rs:274-282 | for a path `dir/stem.ext` the type is decided by `ext` alone |
| `Ledger.NewTable` | src/transaction.rs:433-441 | a new table has no records and no recommendation; its file type is that of its path: JSON exactly when the file name's extension is `json`, CSV exactly when it is `csv` |
| `Ledger.Len` | src/transaction.rs:597-599 | the number of records |
| `Ledger.LoadJson` | src/transaction.rs:451-456 | a decoding error leaves the table unchanged; otherwise the records become the decoded ones, sorted by date |
| `Ledger.LoadCsv` | src/transaction.rs:458-469 | succeeds exactly when every row decodes, and then holds the sorted records; on the first bad row it stops with that row's error, keeping the rows before it in file order |
| `Ledger.Load` | src/transaction.rs:443-449 | dispatches on the file type; an unknown type is the error `File type unknown` and changes nothing |
| `Ledger.Save` | src/transaction.rs:471-499 | for a known type the records end up sorted and permuted only, and the status is the write's; an unknown type is an error that changes nothing |
| `Ledger.SaveThenLoadJson` | src/transaction.rs:451-486 | loading back exactly the saved records reproduces the saved table |
| `Ledger.SaveSortedKeepsOrder` | src/transaction.rs:479-489 | saving a sorted table does not reorder it |
| `Ledger.AppendTransaction` | src/transaction.rs:501-505 | appends one empty record dated like the last one and keeps the others in place |
| `Ledger.AppendKeepsSorted` | src/transaction.rs:501-505 | appending keeps a sorted table sorted |
| `Ledger.DeleteTransaction` | src/transaction.rs:507-511 | an index in range removes exactly that record, keeping the order of the rest; an index out of range changes nothing |
| `Ledger.DeleteKeepsSorted` | src/transaction.rs:507-511 | deleting keeps a sorted table sorted |
| `Ledger.GetCellText` | src/transaction.rs:529-534 | a cell has text exactly when its row and column exist, and the text is that field's cell text |
| `Ledger.CommitText` | src/transaction.rs:520-523 | a pending recommendation replaces the typed text |
| `Ledger.UpdateTransaction` | src/transaction.rs:513-527 | only the record at `row` can change, and it changes as its field mutation says; a failed mutation changes nothing and returns its error; a missing row is success with no change |
| `Ledger.CommitUsesRecommendation` | src/transaction.rs:519-524 | with a recommendation pending, committing a text column stores the recommendation whatever was typed |
| `Ledger.UpdateOtherThanDateKeepsSorted` | src/transaction.rs:513-527 | a commit to any column other than the date keeps a sorted table sorted |
| `Ledger.UpdateDateCanUnsort` | src/transaction.rs:513-527 | a commit that moves a date past the next record's date leaves the table unsorted, since nothing re-sorts |
| `Ledger.FindRecommended` | src/transaction.rs:536-547 | the result is the nearest row above `row` whose cell text starts with the input; there is none exactly when no row above matches |
| `Ledger.DetailsKey` | src/transaction.rs:558-563 | the details of the row, or the empty text when the row does not exist |
| `Ledger.UpdateRecommendedInput` | src/transaction.rs:549-573 | typed input is searched for in the same column; an empty input is matched against this row's details, and the matched record's text in the requested column is recommended; an unknown column leaves the old recommendation |
| `Ledger.RecommendationExtendsInput` | src/transaction.rs:549-555 | with typed input, a recommendation always starts with the input, and there is one exactly when some earlier row offers one |
| `Ledger.EmptyDetailsRecommendsPrevious` | src/transaction.rs:556-571 | with no input and empty details, the recommendation is the requested column of the record just above |
| `Ledger.NearestIsPrevious` | src/transaction.rs:542-546 | when the record just above matches, it is the one found |
| `Ledger.ClearRecommended` | src/transaction.rs:589-591 | drops the recommendation and keeps the records |
| `Ledger.GhostText` | src/transaction.rs:575-587 | corrected ghost text: empty without a recommendation or when the input is longer than it, otherwise the recommendation's last characters, as many as the input lacks, so the ghost text is always a suffix of the recommendation |
| `Ledger.GhostTextCompletes` | src/transaction.rs:575-587 | when the recommendation extends the input, input followed by the ghost text is the recommendation |
| `Ledger.SearchThenGhostText` | src/transaction.rs:549-587 | right after a search on typed input, the ghost text completes the input to the recommendation |
| `Ledger.GhostTextAsWritten` | src/transaction.rs:575-587 | ghost text as written: without a recommendation it is empty |
| `Ledger.GhostTextAsWrittenPanics` | src/transaction.rs:579-583 | input `é` with recommendation `éa` slices inside a character and panics, where the corrected ghost text is `a` |
| `Ledger.GhostTextAsWrittenWrongSuffix` | src/transaction.rs:579-583 | input `éa` with recommendation `éab` yields `ab`, where the corrected ghost text is `b` |
| `Ledger.GhostTextAgreesOnAscii` | src/transaction.rs:579-583 | when the recommendation's first characters, as many as the input has, are ASCII, the as-written and corrected ghost texts agree |
| `Report.LaterMonthIsStrictTotalOrder` | src/transaction.rs:329 | most-recent-first is a strict total order on months |
| `Report.LabelLtIsStrictTotalOrder` | src/transaction.rs:330 | the label order (direction, then category, with no value first) is a strict total order |
| `Report.AddTo` | src/transaction.rs:315-326 | adding to a sum creates a missing key at zero, adds the amount at the key and leaves every other key alone |
| `Report.AddRecord` | src/transaction.rs:306-328 | folding one record in keeps months and labels strictly ordered |
| `Report.NewReport` | src/transaction.rs:302-336 | the built report's months and labels are strictly ordered |
| `Report.ReportMonths` | src/transaction.rs:303-329 | the months are most recent first, without repeats, and are exactly the months of the ILS records |
| `Report.ReportCategories` | src/transaction.rs:304-330 | the labels are in ascending order, without repeats, and are exactly the (direction, category) and (direction, none) labels of the ILS records |
| `Report.ReportSummary` | src/transaction.rs:315-326 | the sums have a key exactly for each label and month an ILS record falls in, and each sum is the total of the amounts counted towards it |
| `Report.OtherCurrencyIgnored` | src/transaction.rs:307 | a record in another currency changes nothing in the report |
| `Report.DirectionBeforeItsCategories` | src/transaction.rs:310-330 | a direction's roll-up label comes before every category label of that direction |
| `Report.CategoryHasDirection` | src/transaction.rs:310-314 | every label has a direction, and that direction's roll-up label is listed too |
| `Report.RollupIsSumOfCategories` | src/transaction.rs:315-326 | a direction's monthly roll-up equals the sum of its categories' monthly sums |
| `Report.RollupStep` | src/transaction.rs:315-326 | one record more keeps a direction's roll-up equal to the sum of its listed categories, when a record of that direction and month has a listed category |
| `Report.RowsLen` | src/transaction.rs:338-340 | the number of months |
| `Report.MonthTextIsDatePrefix` | src/transaction.rs:349 | a month's row text is a newline followed by the first seven characters, `YYYY.MM`, of any of its dates' display text |
| `Report.GetMonthRows` | src/transaction.rs:342-357 | one row per month, in report order, holding the month text and the label's sum for that month, or zero |
| `Report.MonthRowsAreTotals` | src/transaction.rs:342-357 | for a built report each month row shows the total of the label's amounts in that month |
| `Report.GetMonthAtIndex` | src/transaction.rs:359-361 | the month at an index, present exactly when the index is in range |
| `Report.NonZeroLabels` | src/transaction.rs:366-374 | keeps exactly the labels with a recorded non-zero sum in the month, in their order |
| `Report.GetCategoriesForMonth` | src/transaction.rs:364-378 | the labels with a recorded non-zero sum in the indexed month, in ascending order; none for an index past the last month |
| `Report.CategoriesForMonthAreNonZeroTotals` | src/transaction.rs:364-378 | for a built report a label is listed for a month exactly when its total there is non-zero |
| `Report.GetCategoryAt` | src/transaction.rs:381-390 | the label at the index in the month's list, or (none, none) past its end |
| `Report.NoCategoryIsUnambiguous` | src/transaction.rs:381-390 | for a built report (none, none) is returned exactly when the index is past the end |
| `InputPage.NewPage` | src/input_page.rs:32-41 | row 0 selected, no column, empty input and error, and the cursor at 1, past the end of the empty input |
| `InputPage.ClampCursor` | src/input_page.rs:138-140 | a position within the input is kept, and one past it becomes the end |
| `InputPage.MoveCursorRight` | src/input_page.rs:142-145 | the cursor moves one character right, stopping at the end; nothing else changes |
| `InputPage.MoveCursorLeft` | src/input_page.rs:152-155 | the cursor moves one character left, stopping at 0, and a cursor past the end comes back to the end; nothing else changes |
| `InputPage.MoveCursorHome` | src/input_page.rs:157-160 | the cursor goes to 0 and nothing else changes |
| `InputPage.MoveCursorToEnd` | src/input_page.rs:147-150 | the byte length, clamped to the character count, puts the cursor after the last character |
| `InputPage.RightThenLeft` | src/input_page.rs:142-155 | inside the input, right then left returns to the same page |
| `InputPage.NthCharOffset` | src/input_page.rs:164-166 | the `k`-th character has a byte offset exactly when `k` is below the character count |
| `InputPage.NthCharOffsetIsPrefixLength` | src/input_page.rs:164-166 | that offset is the UTF-8 length of the first `k` characters |
| `InputPage.EditingTextByteIndex` | src/input_page.rs:162-168 | the byte index is the UTF-8 length of the text before the cursor, or the whole length when the cursor is past the end |
| `InputPage.InsertAtBoundary` | src/input_page.rs:179 | inserting at the byte offset of a character boundary puts the character between the same characters |
| `InputPage.InsertInsideCharacterPanics` | src/input_page.rs:179 | inserting at a byte offset inside a multi-byte character panics |
| `InputPage.UpdateRecommendation` | src/input_page.rs:170-175 | with a cell selected, the recommendation is searched again for that cell and the current input; the records and all else stay |
| `InputPage.EnterChar` | src/input_page.rs:177-182 | the character goes in at the cursor, or at the end when the cursor is past it; the cursor then sits just after it and a new search runs |
| `InputPage.DeleteChar` | src/input_page.rs:184-197 | at the start nothing happens; otherwise exactly the character before the cursor goes, the rest keep their order, and the cursor moves back one |
| `InputPage.DeleteCharForward` | src/input_page.rs:199-207 | inside the input, the character under the cursor goes and the cursor stays; at or past the end, the text is kept, the cursor goes to the end and the recommendation is dropped |
| `InputPage.EnterThenDelete` | src/input_page.rs:177-197 | backspace right after typing restores the input and the cursor |
| `InputPage.EnterThenLeftThenDeleteForward` | src/input_page.rs:152-207 | typing, moving left and deleting forward restores the input and the cursor |
| `InputPage.EditsKeepCursorInRange` | src/input_page.rs:50-207 | every edit, move and reload keeps a cursor that was within the input within it |
| `InputPage.UpdateEditingText` | src/input_page.rs:50-60 | when the selected cell exists, its text becomes the input with the cursor at its end, the error is cleared and a search runs; otherwise nothing changes |
| `InputPage.UpdateSelected` | src/input_page.rs:62-66 | selects the row and keeps the column and the records; when a column is selected and the cell exists, the input is reloaded with that cell's text, the cursor goes to its end, the error is cleared and the recommendation is searched again for that cell; otherwise nothing else changes |
| `InputPage.SelectShowsCell` | src/input_page.rs:62-66 | after selecting an existing cell, the input is exactly that cell's text, with the cursor at its end |
| `InputPage.NextRow` | src/input_page.rs:74-93 | with no selection, row 0 is selected; before the last row, the next row is selected; at the last row, either a record is appended and selected or the last row stays selected; whenever a row was selected, the selection ends on an existing row; the input, cursor and error are then reloaded from the newly selected cell when it exists, and otherwise stay as they were |
| `InputPage.NextRowAppendsOne` | src/input_page.rs:74-93 | stepping with `Yes` from the last row adds exactly one record, zero amount, dated like the last, and selects it |
| `InputPage.CommitInput` | src/input_page.rs:209-215 | with a cell selected the table is updated at that cell and its status returned; otherwise nothing happens |
| `InputPage.CommitThenReloadShowsInput` | src/input_page.rs:209-215 | with no recommendation pending, committing a text cell and reloading it shows what was typed, cursor at its end |
| `InputPage.DeleteSelected` | src/input_page.rs:68-72 | deletes the selected row's record, and does nothing without a selection |

## Left out

- File I/O is not modelled. Load and save take the decoded records or the
  write outcome as parameters. `serde_json`, the `csv` reader and writer and
  the serde impls of `SimpleDate` (transaction.rs:74-91) are not part of this
  model. Deserializing a date goes through the same parse as `Dates.ParseDate`.
- Floating point is not modelled. Amounts are exact reals, so `f64` rounding
  in parsing, in `{:.2}` and in the report's running sums is ignored. The
  literals `inf`, `infinity` and `nan` are refused rather than parsed.
- Rendering is not modelled: `generate_row`, `widths`, `names`, table design
  and styling. `get_category_rows_for_month_by_index` (transaction.rs:392-422)
  only formats rows for display.
- Key dispatch and navigation are not modelled: `handle_key_events`,
  `initialize_table`, `previous_row`, `first_row`, `last_row`, the column
  moves, the scrollbar and the rendering functions of input_page.rs. The
  report page, main.rs, instructions.rs and utils.rs are not part of this
  model.
- `iter` and `generate_report` (transaction.rs:593-603) are the record
  sequence and `Report.NewReport` of it.
- `InputPage.MoveCursorRight`: the cursor is an unbounded `nat`, so the
  `saturating_add` at `usize::MAX` is not modelled.
- `InputPage.NextRow`: requires a non-empty table when a row is selected. The
  Rust code computes `len() - 1` there, which underflows on an empty table.
- `Ledger.AppendTransaction`: requires a non-empty table, because the Rust code
  unwraps the last record.
- `Ledger.Load`: for CSV it states only that a successful load is sorted. The
  full behaviour is stated by `Ledger.LoadCsv`.
- `Ledger.GhostTextAsWritten`: its contract covers only the
  no-recommendation case. Its other behaviour is stated by
  `Ledger.GhostTextAsWrittenPanics`, `Ledger.GhostTextAsWrittenWrongSuffix`
  and `Ledger.GhostTextAgreesOnAscii`.
- `Report.AddRecord`: its contract states only the ordering. What the built
  report contains is stated by `Report.ReportMonths`,
  `Report.ReportCategories` and `Report.ReportSummary`.
- `HashSet`/`HashMap` iteration order is not modelled. Months and labels are
  collected directly into ordered, duplicate-free sequences, which is
  `into_iter().sorted()` of the set. The sums are a `map`.
- A `SimpleDate` holds year, month and day only. The `time::Date` it carries
  is determined by them.

## Findings

| source | as written | input that shows it | evidently intended | confidence | as-written member | corrected member |
|---|---|---|---|---|---|---|
| src/transaction.rs:579-583 | the ghost text slices the recommendation at the input's character count used as a byte offset | input `é`, recommendation `éa`: byte 1 is inside `é`, so the slice panics; input `éa`, recommendation `éab`: the result is `ab` instead of `b` | the recommendation without its first characters, as many as the input has | high, by reading; not executed | `Ledger.GhostTextAsWritten` | `Ledger.GhostText` |
