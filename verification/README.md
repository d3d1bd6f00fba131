# Floating-Shelf dashboards in Dafny

This project models the pure logic of the three Floating-Shelf dashboard scripts. All of it works on rows of worksheet cells.

- **script.js** is the "Sheet 2" pivot dashboard.
  - It cuts the grid into tables at blank rows and at rows that repeat the first non-blank (header) row.
  - It builds one filter control per header column: a dropdown of the column's distinct trimmed values when there are at most twenty, a search box otherwise.
  - It hides rows that fail an active filter.
  - It escapes option text with `escapeHtml`.
- **app.js** is the summary dashboard.
  - It projects "Sheet1" rows onto nine fixed column codes.
  - It filters records with multi-select dropdowns and classifies columns as categorical or numeric.
  - It groups the filtered records by the label of one column and counts them.
  - It offers a label search, pagination, a sort-header toggle and previous/next page buttons.
- **record-entry.js** is the form for adding a row.
  - It infers each column's input type and dropdown suggestions.
  - It validates number fields.
  - It builds the row appended to the sheet.
  - It guesses the GitHub repository from the page address.

Modules:

| module | file | what it holds |
|---|---|---|
| `Seqs` | seqs.dfy | filter, flatten, count, subsequence |
| `Strings` | strings.dfy | JavaScript `trim`, ASCII `toLowerCase`, `includes`, code-point order, sorted distinct values, decimal numerals |
| `Numbers` | numbers.dfy | when `Number(s)` is not NaN (the StringNumericLiteral grammar of section 7.1.4.1.1 of ECMA-262) |
| `Outcomes` | outcomes.dfy | `Option` and `Result` |
| `Cells` | cells.dfy | a cell value: missing (`undefined`), text, or a number carried by its `String(n)` form |
| `PivotTables`, `SheetFilters`, `Html` | pivot_tables.dfy, sheet_filters.dfy, html.dfy | script.js |
| `Dataset`, `Summary` | dataset.dfy, summary.dfy | app.js |
| `RecordEntry` | record_entry.dfy | record-entry.js |

Conventions of the model:

- In script.js a cell is the string `String(cell)` gives for it.
- A cell past the end of a short row reads as `""` in script.js and as `Absent` (`undefined`) in app.js and record-entry.js.
- In the header-row test (script.js:119-124) a blank template cell matches only a blank row cell (`PivotTables.BlankTemplateCellNeedsBlankCell`).
- The numeric share of a column is the exact fraction `Dataset.Share`. The classifiers compute it by integer cross-multiplication, and `Dataset.ShareAtLeast` proves the two forms agree:
  - `2 * numeric < total` is a share below 0.5;
  - `5 * numeric >= 3 * total` is a share of at least 0.6.
- Sorted strings are in lexicographic order of characters (`Strings.Less`), that is, code-point order. See "Left out" for where this differs from the source's orders.

## Model

| member | source | states |
|---|---|---|
| PivotTables.IsHeaderRow | script.js:113-128 | a row matches the template exactly when, at every template position, the trimmed row cell (blank past the row's end) equals the trimmed template cell |
| PivotTables.IsRowEmpty | script.js:106-108 | a row is empty exactly when every cell trims to the empty string |
| PivotTables.MatchesFromIff | script.js:118-125 | the loop with its skip-both-blank branch accepts exactly the rows that agree at every remaining template position |
| PivotTables.BlankTemplateCellNeedsBlankCell | script.js:119-124 | a blank template cell is not a wildcard: a non-blank row cell there rejects the row |
| PivotTables.HeaderRowIgnoresTail | script.js:116-118 | cells beyond the template's length never change the outcome |
| PivotTables.HeaderRowReflexive | script.js:113-128 | every row matches itself as a template |
| PivotTables.RowEmptyNormalized | script.js:106-108 | emptiness is the same before and after trimming every cell, and a zero-length row is empty |
| PivotTables.HeaderRowNormalized | script.js:113-115 | matching the trimmed row or the raw row gives the same answer |
| PivotTables.SeparatorIff | script.js:85-93 | a row ends a table exactly when it is blank or matches the header template |
| PivotTables.Flush | script.js:74-79 | `pushTable` emits at most one table, never an empty one, and loses no accumulated row |
| PivotTables.SplitTables | script.js:81-98 | no emitted table is empty |
| PivotTables.SplitTablesFlatten | script.js:81-98 | the emitted tables, concatenated, are the accumulated rows followed by the non-separator rows in their original order |
| PivotTables.SeparatorSplits | script.js:85-93 | no table reaches across a separator row |
| PivotTables.RunIsOneTable | script.js:95-98 | a run of rows without a separator becomes a single table |
| PivotTables.FirstNonBlank | script.js:62-63 | the position found is that of the first row with a non-blank trimmed cell, every earlier row being blank |
| PivotTables.ExtractPivotTables | script.js:61-101 | no header and no tables when every row is blank; otherwise `headers` is the raw first non-blank row, no table is empty, and the tables joined are exactly the later rows that are neither blank nor header repeats, in order |
| PivotTables.NoContentNoTables | script.js:63-67 | the result is empty headers and no tables exactly when every row is blank |
| PivotTables.ExtractFromFirstRow | script.js:62-70 | a grid whose first row is not blank takes that row, untrimmed, as its header and splits the remaining rows against its trimmed copy |
| PivotTables.HeaderAndBlankSeparate | script.js:84-92 | the header row ends a table against its own template, and so does a row of no cells |
| PivotTables.SplitAtTwoSeparators | script.js:81-98 | a row, a separator, another separator and a row give two one-row tables |
| PivotTables.BlankAndRepeatedHeaderSplit | script.js:61-101 | the grid header, a, blank row, header again, c yields the header and exactly the two tables [a] and [c] |
| SheetFilters.ApplyFilters | script.js:235-261 | as written: one display flag per row of every table, set exactly when every filter passes the row. An empty value passes; a select needs the raw cell `String(cell ?? "")` to equal the value; a search needs the lower-cased cell to contain the lower-cased text |
| SheetFilters.ApplyFiltersTrimmed | script.js:245-256 | corrected: the same flags, with a select comparing the trimmed cell, the form in which the option was offered |
| SheetFilters.ResetFilters | script.js:266-276 | after a reset no filter rejects any row |
| SheetFilters.ResetShowsEverything | script.js:266-276 | after a reset every row of every table is shown |
| SheetFilters.EmptyValuePassesAll | script.js:247-249 | a filter whose value is empty (the "All" option or a cleared box) acts as no filter at all |
| SheetFilters.MoreFiltersHideMore | script.js:244-256 | adding a filter on a column can only hide rows |
| SheetFilters.FiltersConjoin | script.js:244-256 | filters on different columns combine with AND |
| SheetFilters.SelectIsExact | script.js:251-253 | as written, a select filter keeps exactly the rows whose raw, untrimmed cell equals the chosen value (see Findings) |
| SheetFilters.TrimmedAgreesOnUnpaddedCells | script.js:245-256 | the written and the corrected filters show the same rows whenever no selected cell has white space at either end |
| SheetFilters.SearchIsCaseInsensitive | script.js:255 | a search filter keeps exactly the rows whose lower-cased cell contains the lower-cased text, and the case of either side does not matter |
| SheetFilters.ColumnOptions | script.js:139-151 | the options are strictly sorted and are exactly the distinct non-empty trimmed values of the column across all tables |
| SheetFilters.ControlLabel | script.js:158 | a non-empty header is the label; an empty one gives "Column " followed by the decimal numeral, without leading zeros, of the column's position plus one |
| SheetFilters.BuildFilters | script.js:135-183 | one control per header column; a dropdown exactly when the column has at most twenty options, and the dropdown lists those options |
| SheetFilters.OptionCount | script.js:150-151 | the option list has exactly as many entries as the column has distinct non-empty trimmed values |
| SheetFilters.DropdownIffFewValues | script.js:150-152 | a column gets a dropdown exactly when it has at most twenty distinct non-empty trimmed values, and no option is blank |
| SheetFilters.PaddedCellHiddenByOwnOption | script.js:245-252 | as written, the cell "East " makes "East" an option of its column, and choosing that option hides the row |
| SheetFilters.OwnOptionKeepsRowVisible | script.js:145-151 | with the corrected comparison, every row carrying a value is offered it as an option and stays visible when that option is chosen |
| Html.ReplaceAll | script.js:290 | a global replacement of a character that does not occur changes nothing |
| Html.EscapeHtmlAppend | script.js:288-295 | escaping distributes over concatenation |
| Html.EscapeHtmlIsEscapeEach | script.js:288-295 | the five chained replacements equal replacing every character by its own entity, so no entity made by an earlier pass is rewritten by a later one |
| Html.EscapeHtmlHasNoMarkup | script.js:288-295 | the escaped text contains no `<`, `>`, `"` or `'` |
| Html.EscapeHtml | script.js:288-295 | text with none of `&<>"'` is returned unchanged |
| Html.UnescapeEscapeHtml | script.js:162-164 | decoding the five entities gives back the original text, so a dropdown's value is the option value itself |
| Strings.Trim | script.js:107 | the result is no longer than the input, neither starts nor ends with white space, and is empty exactly when the input is all white space |
| Strings.TrimIsInfix | script.js:107 | the trimmed text sits inside the input with only white space around it |
| Strings.ContainsIff | script.js:255 | `includes` holds exactly when the text occurs at some position |
| Strings.SortedDistinct | script.js:151 | the result is strictly increasing and has exactly the members of the input |
| Strings.SortedUnique | script.js:151 | two strictly sorted lists with the same members are equal, so the sorted distinct values do not depend on the order they were met |
| Strings.NatToString | script.js:158 | the decimal numeral of a number: non-empty, all digits, no leading zero, and its digits denote the number |
| Numbers.DigitsParse | record-entry.js:41 | a non-empty run of decimal digits is a number |
| Numbers.NoDigitsNoNumber | record-entry.js:41 | non-blank text without digits and without the `I` of `Infinity` is NaN |
| Numbers.ParsesAsNumber | record-entry.js:41 | blank text reads as a number (`Number("")` is 0) |
| Cells.CleanValue | record-entry.js:16-21 | a missing value cleans to "", anything else to its trimmed string form, which has no white space at either end |
| Cells.CleanValueIdempotent | record-entry.js:16-21 | cleaning a cleaned value changes nothing |
| Cells.ToNumberDefined | app.js:66-73 | missing and empty values are not numbers, numbers are, and non-empty digit text is |
| Cells.RemoveCommas | app.js:71 | the result is the input with exactly its commas removed: the other characters in order, as many as the input has non-commas, no comma left, and the input itself when it had none |
| Cells.NumberTestsAgree | app.js:66-73 | on text without commas, `toNumber` accepts exactly the non-empty text that `Number` reads |
| Cells.GroupedDigitsAreNumbers | app.js:70-72 | comma-grouped digits such as "1,234" are numbers to `toNumber` |
| Dataset.ColumnName | app.js:91 | a column is named by its header cell when that is truthy, otherwise "Column <code>" |
| Dataset.Columns | app.js:87-93 | the nine allowed codes, in declaration order, each with its fixed position and named by its header cell, or "Column <code>" when that cell is falsy |
| Dataset.Project | app.js:95-103 | a record has exactly the allowed codes, each holding its column name and the cell at its position |
| Dataset.LoadData | app.js:80-104 | a missing sheet is an error; otherwise the columns are those of the sheet's first row and there is one record per later row, built from that row |
| Dataset.LoadedRecordsFollowRows | app.js:95-104 | record `i` holds the cells of sheet row `i + 1`, and an empty header cell gives "Column <code>" |
| Dataset.GetFilteredData | app.js:155-168 | the rows kept are exactly the rows that pass every column's selection, in their original order and with their repetitions |
| Dataset.FilteredIdempotent | app.js:155-168 | filtering the filtered rows again changes nothing |
| Dataset.EmptySelectionsKeepAll | app.js:157-160 | with no filters or only empty selections every row is returned |
| Dataset.SelectionIsMembership | app.js:161-165 | under a non-empty selection a missing value excludes the row and a kept row's string value is selected |
| Dataset.PresentValues | app.js:172-174 | the column's values with exactly the missing and empty ones removed, in row order and with repetitions |
| Dataset.IsCategorical | app.js:170-183 | a column is categorical exactly when it has values, less than half of them are numeric, and it has more than one but at most `maxUnique` distinct values |
| Dataset.IsNumeric | app.js:185-197 | a column is numeric exactly when it has values and at least 60% of them are numeric |
| Dataset.ShareAtLeast | app.js:178-179 | a share reaches a fraction exactly when the cross-multiplied counts do |
| Dataset.CategoricalColumns | app.js:170-183 | the columns kept are exactly the categorical ones, in their original order |
| Dataset.NumericColumns | app.js:185-197 | the columns kept are exactly the numeric ones, in their original order |
| Dataset.NeverBoth | app.js:178-195 | no column is both categorical (share below 0.5) and numeric (share at least 0.6) |
| Dataset.EmptyColumnUnclassified | app.js:175-192 | a column without non-empty values is neither categorical nor numeric |
| Dataset.ConstantColumnNotCategorical | app.js:180-181 | a column with a single distinct value is never categorical |
| Summary.GroupKey | app.js:251 | a missing value is grouped as "Unspecified", anything else by its string form |
| Summary.Tally | app.js:252-256 | counting a key adds a group at the end only when its label is new |
| Summary.GroupCounts | app.js:249-266 | group labels are pairwise distinct and are exactly the keys met |
| Summary.TallyCounts | app.js:252-256 | counting one more key keeps every count equal to the occurrences of its label |
| Summary.GroupCountsCount | app.js:249-261 | every group's count is the number of rows carrying its label, hence at least one |
| Summary.GroupCountsTotal | app.js:249-261 | the counts add up to the number of filtered rows |
| Summary.GroupCountsFirstOccurrenceOrder | app.js:249-266 | groups appear in the order in which their labels first occur |
| Summary.GroupColumn | app.js:246-247 | the group column is the first categorical column, or the first column when none is categorical |
| Summary.GroupColumnIsFirstCategorical | app.js:246-247 | when column `k` is categorical and no earlier column is, the rows are grouped by column `k` |
| Summary.BuildPivotRows | app.js:244-268 | the grouped rows have distinct labels |
| Summary.PivotRowsPartition | app.js:244-268 | the groups partition the filtered rows: each counts its own rows and together they count all of them |
| Summary.SearchRows | app.js:271-274 | the rows kept are exactly those whose lower-cased label contains the lower-cased term, in their original order |
| Summary.EmptySearchKeepsAll | app.js:271-274 | an empty search term keeps every grouped row |
| Summary.SearchIgnoresCase | app.js:271-274 | searching for the lower-cased term gives the same rows |
| Summary.TotalPages | app.js:307 | at least one page, and the fewest pages of the given size that hold all rows: the rows end before page `pages + 1` would start, and page `pages` starts before the last row unless there is only one page |
| Summary.ClampPage | app.js:308 | the page after clamping is at most the page count and at most the requested page |
| Summary.PageSlice | app.js:309-310 | at most one page of rows, starting at `(page - 1) * size`, empty past the end |
| Summary.FirstPagesArePrefix | app.js:309-310 | the first `k` pages, concatenated, are the rows before the start of page `k + 1` (all rows when there are fewer) |
| Summary.PagesCoverRows | app.js:307-310 | reading all pages in turn gives back every row in order |
| Summary.ClickHeader | app.js:327-332 | clicking the active key flips the direction; clicking another key sorts by it ascending |
| Summary.ClickTwice | app.js:327-332 | two clicks on the active key restore the sort; two clicks on a new key sort by it descending |
| Summary.Step | app.js:374-397 | no event changes the sort or takes the page below 1. Previous goes back one page, stopping at 1, and next goes forward one; both keep the filters and the search. Reset clears the filters; a search sets the term; a selection sets that column's selection only; a load clears filters and search. Every event except previous and next returns to page 1. The selection and load events are the handlers at app.js:143-149 and app.js:107-110 |
| Summary.Render | app.js:362-364 | after the clamp the page lies between 1 and the page count; previous is disabled exactly on page 1 and next exactly on the last page |
| Summary.NextMovesForward | app.js:394-397 | when next is enabled, pressing it shows the following page |
| Summary.PrevUndoesNext | app.js:389-397 | previous undoes next |
| Summary.ResetShowsAllRows | app.js:374-380 | after a reset or a fresh load every loaded row passes the filters |
| Summary.SelectionIsPerColumn | app.js:143-149 | a selection on one column leaves the other columns' selections alone, and clearing it lets that column pass every row |
| RecordEntry.Sample | record-entry.js:36 | the first thirty non-empty values in their original order, or all of them when there are fewer |
| RecordEntry.InferColumnType | record-entry.js:26-54 | a forced-number header gives number, otherwise a date keyword gives date, and otherwise a column with no non-empty value gives text |
| RecordEntry.TypeOfSample | record-entry.js:26-54 | a forced-number header gives number; otherwise a date keyword gives date; otherwise an empty sample gives text, an all-numeric sample gives number, one to eight distinct cleaned values give select, and anything else gives text |
| RecordEntry.SampleStable | record-entry.js:36 | once thirty non-empty values are seen, later values do not change the sample |
| RecordEntry.OnlySampleMatters | record-entry.js:36-39 | values after the first thirty non-empty ones never change the inferred type |
| RecordEntry.DigitColumnIsNumber | record-entry.js:41-43 | a column of digit strings gets a number field when the header forces nothing |
| RecordEntry.InferSelectOptions | record-entry.js:56-61 | the suggestions are strictly sorted and are exactly the distinct non-empty cleaned values |
| RecordEntry.OptionsAreTrimmed | record-entry.js:56-61 | no suggestion is empty or padded with white space |
| RecordEntry.ValidationMessage | record-entry.js:145-156 | the message is either empty or the invalid-number text |
| RecordEntry.ValidationIff | record-entry.js:145-156 | an input is invalid exactly when its field is a number field and `Number` rejects it; blank input is always valid |
| RecordEntry.EntryCell | record-entry.js:230-233 | the written cell is the entered value when there is one and "" when it is missing, never missing itself |
| RecordEntry.AppendRowToSheet | record-entry.js:222-239 | a missing sheet is an error; otherwise the grid gains exactly one row and earlier rows are unchanged. The new row has one cell per header of the sheet (or of the given headers for an empty sheet), holding the entered value where there is one and "" elsewhere |
| RecordEntry.AppendTwice | record-entry.js:222-239 | after two appends the grid has two more rows, the first append is kept as it was, and both new rows have the same width |
| RecordEntry.ReplaceFirst | record-entry.js:76 | text without the pattern is returned unchanged; otherwise only the first occurrence of the pattern is replaced |
| RecordEntry.Split | record-entry.js:74 | at least one piece, none containing the separator |
| RecordEntry.JoinSplit | record-entry.js:74 | joining the pieces with the separator gives the text back |
| RecordEntry.PathSegments | record-entry.js:74 | the pieces between slashes with exactly the empty ones removed, in order; no segment is empty or holds a slash |
| RecordEntry.BuildRepoDetails | record-entry.js:63-82 | saved details win; otherwise a `github.io` host with a path segment gives the owner and first segment, and anything else gives an empty owner and repository, always on branch "main" |
| RecordEntry.StripPagesSuffix | record-entry.js:76 | removing ".github.io" from `owner.github.io` gives back an owner without dots |
| RecordEntry.SplitLeadingSlash | record-entry.js:74-77 | the first segment of "/repo/..." is "repo" |
| RecordEntry.PagesAddressNamesRepo | record-entry.js:73-79 | on `owner.github.io/repo/...` the owner and repository are read back, on branch "main" |

## Left out

- Fetching the workbook, the XLSX reader and writer, and base64 encoding are not modelled. The model starts from the grid they produce and ends with the grid that would be written.
- The DOM is not modelled: element construction, event wiring and `style.display`. Visibility is a boolean per row, and the handlers are pure state changes.
- `localStorage`, `window.prompt`, the GitHub contents API calls and `requestToken` are I/O and remote services, so they are left out. Saved repository details are an input to `BuildRepoDetails`. Whether `JSON.parse` succeeds is part of that input; an unparsable value falls through to the address.
- The KPI cards and the per-group sums and averages are left out. They rely on floating-point arithmetic and `Intl.NumberFormat` formatting. `buildPivotRows` is modelled for labels and counts only.
- The sort step of `renderTable` is left out: the comparator mixes string and number keys. Only the sort-state toggle is modelled.
- RecordEntry.InferSelectOptions: sorts in code-point order, while the source uses `localeCompare`. Locale collation is not modelled.
- SheetFilters.ColumnOptions: sorts in code-point order, while the default `.sort()` of the source compares UTF-16 code units. The two differ only between characters above U+FFFF and characters from U+E000 to U+FFFF.
- Strings.SortedDistinct: the same code-point order as `SheetFilters.ColumnOptions`, with the same difference from UTF-16 code-unit order.
- Dataset.IsCategorical, Dataset.IsNumeric: the share is an exact fraction. The source divides in binary floating point, which can only differ from it for counts far beyond any worksheet.
- Strings.Lower: lower-cases ASCII letters only. The source's `toLowerCase` also maps non-ASCII letters.
- Cells.Value: a number is carried by its `String(n)` form. Number formatting itself is not modelled, boolean and date cells are not modelled, and `Num("0")` is the only falsy number.
- In script.js every cell is taken as a string. A numeric header cell 0 would be falsy in the source and labelled "Column n".
- `inferColumnType` throws on a non-string header, because it calls `header.toLowerCase()`. The model takes headers to be strings.
- Dataset.ValueOf: a record without a column code reads as missing. In the classifiers the source would throw on such a record instead; records built by `loadData` always have every code.
- SheetFilters.BuildFilters: the HTML parser turns a CR LF pair inside an option value into LF. `Html.Unescape` does not model that, so an option value with a line break inside is outside the model.
- The worked example grid (two tables, each with one data row) is stated for arbitrary header and data rows by `PivotTables.BlankAndRepeatedHeaderSplit`, not for the literal cell strings of the example.

## Findings

| source | as written | input that shows it | evidently intended | confidence | as-written member | corrected member |
|---|---|---|---|---|---|---|
| script.js:252 | a select filter compares the raw cell (`String(rowData[columnIndex] ?? "")`) with the option value, but the options are built from trimmed cells (script.js:145) | a column cell "East " offers the option "East"; choosing it hides that row, and no option ever shows it | compare the trimmed cell with the option value, so choosing an offered value keeps every row that carries it | not executed | SheetFilters.ApplyFilters, SheetFilters.PaddedCellHiddenByOwnOption | SheetFilters.ApplyFiltersTrimmed, SheetFilters.OwnOptionKeepsRowVisible |
