# Transaction reconciliation: the result presentation engine and its back end, in Dafny

This project models the reconciliation application's result screens and the
back end that feeds them, and proves properties of that model. An internal
ledger export and a provider statement are uploaded as CSV files. A
reconciliation service maps their columns onto five standard fields and merges
them on the transaction reference. It then splits the references into matched,
internal-only and provider-only transactions. The browser shows a summary
dashboard and one result table per category.

Modules, one concern each:

- `Wrappers` (`wrappers.dfy`): `Option` and `Result`.
- `Text` (`text.dfy`): ASCII case mapping, substring search (`includes`, Python's `in`), and decimal rendering of integers.
- `Sequences` (`sequences.dfy`): the subsequence relation.
- `Values` (`values.dfy`): the scalar values of a record (string, number, boolean, null) and the order the table sorts by.
- `CategoryTable` (`result_table.dfy`): the result table of one category, covering search, sort, pages, row highlighting, cells, headers and CSV export. It also holds the component state as a class, `TableState`.
- `SummaryDashboard` (`summary_dashboard.dfy`): the category counts and their total, percentages in tenths of a percent, the quality counters and the column-mapping panel.
- `FileUploader` (`file_uploader.dfy`): the two upload slots, the uploading flag and the error line, as a class, `Uploader`.
- `Reconciliation` (`reconciliation.dfy`): the upload extension check `allowed_file`, the keyword-scored `map_columns`, and the categories, match flags and counts of `reconcile_transactions`.
- `Report` (`report.dfy`): the summary as the dashboard receives it from the back end.

Behaviours the proofs make explicit:

- The table's search keeps each matching record as often as it occurs, in order. With an empty query, a record whose values are all null is dropped.
- Sorting is stable. It is a permutation of its input, and the rows are in order on the chosen key.
- The pages, read in order, are exactly the visible rows.
- Changing the search or the sort does not reset the current page. A page past the new last page therefore renders no rows (`CategoryTable.StalePageIsEmpty`). The code keeps this page number as it is, even though a page within `[1, totalPages]` would be the natural invariant. The model follows the code.
- A header is a candidate for the one standard field it scores best on. Ties between fields go to the earlier field in the order transaction_reference, amount, status, transaction_date, transaction_currency.
- The column mapping gives each field the first of its candidate headers with the highest score. A header that ties between a field and an earlier one is a candidate for the earlier field only.
- Keywords written with an underscore can never match. Normalisation has already turned every underscore in the header into a space.
- The one-sided rows of a reconciliation keep only the columns that the merge leaves under their own name. Any column both files have is dropped from them; the Findings section below has the details.

## Model

| member | source | states |
|---|---|---|
| Text.ContainsIff | src/recon-frontend/src/components/CategoryTable.jsx:21 | the substring search used for `includes` holds exactly when the needle occurs at some offset |
| Values.Stringify | src/recon-frontend/src/components/CategoryTable.jsx:21 | `value?.toString()`: nothing exactly for null; a string as itself, a number in decimal, a boolean as "true" or "false" |
| Values.Less | src/recon-frontend/src/components/CategoryTable.jsx:33-34 | the sort comparator: values of different kinds by kind rank; numbers numerically, strings character by character, false before true; null below every other value |
| Values.LessIrreflexive | src/recon-frontend/src/components/CategoryTable.jsx:33-34 | no value sorts before itself |
| Values.LessTransitive | src/recon-frontend/src/components/CategoryTable.jsx:33-34 | the comparator is transitive |
| Values.LessTotal | src/recon-frontend/src/components/CategoryTable.jsx:33-34 | of two different values one sorts before the other, so the comparator is a strict total order |
| CategoryTable.RowMatches | src/recon-frontend/src/components/CategoryTable.jsx:19-23 | a record whose values are all null matches no query |
| CategoryTable.FilterRows | src/recon-frontend/src/components/CategoryTable.jsx:17-24 | the kept records are a subsequence of the data, and each record occurs as often as in the data if it matches, else never |
| CategoryTable.FilterMembership | src/recon-frontend/src/components/CategoryTable.jsx:19-23 | a record is kept iff it is in the data and one of its values contains the lower-cased query |
| CategoryTable.EmptyQueryMatches | src/recon-frontend/src/components/CategoryTable.jsx:19-22 | the empty query matches a record iff some value is not null (optional chaining skips nulls) |
| CategoryTable.EmptyQueryKeepsAll | src/recon-frontend/src/components/CategoryTable.jsx:17-24 | with an empty search and no all-null record, the filter returns the data unchanged |
| CategoryTable.QueryCaseInsensitive | src/recon-frontend/src/components/CategoryTable.jsx:21 | two queries with the same lower-case form match the same records |
| CategoryTable.NextSortConfig | src/recon-frontend/src/components/CategoryTable.jsx:46-51 | the clicked column becomes the key; the direction is descending iff that key was already sorted ascending |
| CategoryTable.SortToggleTwice | src/recon-frontend/src/components/CategoryTable.jsx:46-51 | two clicks on the current sort column restore the configuration |
| CategoryTable.SortNewKeyAscending | src/recon-frontend/src/components/CategoryTable.jsx:46-51 | the first click on another column sorts it ascending |
| CategoryTable.Insert | src/recon-frontend/src/components/CategoryTable.jsx:29-36 | inserting a row adds exactly that row: the result is a permutation of the row and the sorted rows |
| CategoryTable.StableSort | src/recon-frontend/src/components/CategoryTable.jsx:29-36 | the sorted rows are a permutation of the input |
| CategoryTable.InsertSorted | src/recon-frontend/src/components/CategoryTable.jsx:29-36 | inserting a row into rows sorted on the key keeps them sorted |
| CategoryTable.InsertStable | src/recon-frontend/src/components/CategoryTable.jsx:29-36 | insertion keeps the relative order of rows with equal keys |
| CategoryTable.StableSortSorted | src/recon-frontend/src/components/CategoryTable.jsx:29-36 | the sorted rows are pairwise in order on the key, ascending or descending as configured |
| CategoryTable.StableSortStable | src/recon-frontend/src/components/CategoryTable.jsx:29-36 | rows with equal sort keys keep their relative order, as the stable `Array.prototype.sort` does |
| CategoryTable.SortRows | src/recon-frontend/src/components/CategoryTable.jsx:26-37 | without a key the rows are returned as they are; with one they are a permutation ordered on the key with equal keys in input order |
| CategoryTable.VisibleRows | src/recon-frontend/src/components/CategoryTable.jsx:17-37 | the visible rows are the matching records with their multiplicities, whatever the sort |
| CategoryTable.PageCount | src/recon-frontend/src/components/CategoryTable.jsx:44 | the least number of 10-row pages that holds n rows; zero exactly for no rows |
| CategoryTable.PageRows | src/recon-frontend/src/components/CategoryTable.jsx:39-42 | a page holds rows (p-1)*10 onwards, at most 10 of them, and none past the end |
| CategoryTable.PageNonEmptyIff | src/recon-frontend/src/components/CategoryTable.jsx:39-44 | a page has rows exactly when its number is at most the page count |
| CategoryTable.PagesPartitionRows | src/recon-frontend/src/components/CategoryTable.jsx:39-44 | the pages from p on, concatenated, are the rows from page p's start: nothing lost or repeated |
| CategoryTable.ShowingRangeCountsRows | src/recon-frontend/src/components/CategoryTable.jsx:199 | on an existing page the "Showing a to b" range counts exactly the rows shown; past the last page it is empty |
| CategoryTable.FifteenRows | src/recon-frontend/src/components/CategoryTable.jsx:39-44 | 15 rows make two pages: the first ten, then the last five |
| CategoryTable.RowHighlight | src/recon-frontend/src/components/CategoryTable.jsx:85-108 | for each highlight, the exact conditions under which a row gets it: anomaly first, then amount, then status mismatch, or the category's flat colour |
| CategoryTable.RowClassName | src/recon-frontend/src/components/CategoryTable.jsx:86-107 | every class starts with the base class, and it is the base class alone iff there is no highlight |
| CategoryTable.AnomalyOutranksMismatch | src/recon-frontend/src/components/CategoryTable.jsx:88-100 | a high-risk anomaly with an amount mismatch is shown as the anomaly |
| CategoryTable.CellText | src/recon-frontend/src/components/CategoryTable.jsx:184-187 | a cell is never empty: check or cross for booleans, '-' for null, absent or empty text, else the value's text |
| CategoryTable.HeaderLabel | src/recon-frontend/src/components/CategoryTable.jsx:168 | same length as the column name; each '_' becomes a space and each lower-case letter its upper case, every other character is kept |
| CategoryTable.SortIndicator | src/recon-frontend/src/components/CategoryTable.jsx:169-173 | an arrow shows only on the sort column, up for ascending and down for descending |
| CategoryTable.ClientExport | src/recon-frontend/src/components/CategoryTable.jsx:53-59 | nothing is saved for empty data; otherwise `<category>_transactions.csv` with the full, unfiltered and unsorted data |
| CategoryTable.RenderRow | src/recon-frontend/src/components/CategoryTable.jsx:180-190 | a rendered row has one cell per column and the row's highlight class |
| CategoryTable.PagerView | src/recon-frontend/src/components/CategoryTable.jsx:196-225 | the controls exist iff there is more than one page; they show the range, the result count and "Page p of n"; Previous is enabled iff p is not 1, Next iff p is not the last page |
| CategoryTable.Render | src/recon-frontend/src/components/CategoryTable.jsx:110-228 | "No data available" iff there is no data; otherwise the record count, one header per column of the first record with its caption (HeaderLabel) and arrow (SortIndicator), the current page's rows, the pager, and the server-export button disabled while exporting |
| CategoryTable.UnsearchedUnsortedShowsAll | src/recon-frontend/src/components/CategoryTable.jsx:17-37 | before any search or sort, the table pages through the records as given |
| CategoryTable.FifteenRowsView | src/recon-frontend/src/components/CategoryTable.jsx:196-225 | 15 records: page 1 shows 1 to 10 of 15, Page 1 of 2, Previous off and Next on; page 2 shows 11 to 15, Previous on and Next off |
| CategoryTable.StalePageIsEmpty | src/recon-frontend/src/components/CategoryTable.jsx:39-42 | a page number beyond the current result's page count renders no rows |
| CategoryTable.TableState.constructor | src/recon-frontend/src/components/CategoryTable.jsx:10-14 | empty search, page 1, no sort key (ascending), not exporting |
| CategoryTable.TableState.SetSearchTerm | src/recon-frontend/src/components/CategoryTable.jsx:148-153 | the search term is replaced, and the page and the sort stay as they were |
| CategoryTable.TableState.HandleSort | src/recon-frontend/src/components/CategoryTable.jsx:46-51 | the sort becomes NextSortConfig of the old one, and the page and the search stay as they were |
| CategoryTable.TableState.PreviousPage | src/recon-frontend/src/components/CategoryTable.jsx:202-210 | the page becomes max(p - 1, 1) |
| CategoryTable.TableState.NextPage | src/recon-frontend/src/components/CategoryTable.jsx:214-222 | the page becomes min(p + 1, page count) |
| CategoryTable.TableState.StartServerExport | src/recon-frontend/src/components/CategoryTable.jsx:61-72 | without a session id it is the local export and nothing is pending; with one, a request for the category and session is issued and exporting is set |
| CategoryTable.TableState.CompleteServerExport | src/recon-frontend/src/components/CategoryTable.jsx:73-83 | saves the server's file on success and exactly the local export on failure; exporting is cleared either way |
| SummaryDashboard.PercentTenths | src/recon-frontend/src/components/SummaryDashboard.jsx:36 | 0 when the total is 0; otherwise the share in tenths of a percent, rounded to the nearest tenth; at most 1000 when the count is at most the total |
| SummaryDashboard.TenthsTextRoundTrip | src/recon-frontend/src/components/SummaryDashboard.jsx:36 | the one-decimal text is all digits except its second-to-last character, and the digits before that position followed by the last digit read back as the tenths value |
| SummaryDashboard.PercentText | src/recon-frontend/src/components/SummaryDashboard.jsx:36-62 | "0" when the total is 0, else the one-decimal rendering of the percentage |
| SummaryDashboard.Counter | src/recon-frontend/src/components/SummaryDashboard.jsx:16-19 | an absent counter shows 0, a present one its value |
| SummaryDashboard.MappingEntries | src/recon-frontend/src/components/SummaryDashboard.jsx:184-202 | a line `original → standard` is shown iff the mapping sends that standard field to that original header |
| SummaryDashboard.Render | src/recon-frontend/src/components/SummaryDashboard.jsx:6-208 | nothing iff there is no summary; otherwise the three category counts as given, their total, the three percentages, the four counters, and a mapping panel iff mappings are given |
| SummaryDashboard.PercentAtMostHundred | src/recon-frontend/src/components/SummaryDashboard.jsx:22-62 | no category's share exceeds 100.0% |
| SummaryDashboard.ExampleSummary | src/recon-frontend/src/components/SummaryDashboard.jsx:22-62 | counts 150, 25 and 10 are shown as 150, 25 and 10, with a total of 185 and 81.1%, 13.5% and 5.4% |
| FileUploader.Acceptable | src/recon-frontend/src/components/FileUploader.jsx:15-16 | a drop is accepted only when it has a first file, typed text/csv, of at most 10485760 bytes |
| FileUploader.FailureMessage | src/recon-frontend/src/components/FileUploader.jsx:82 | the server's error text when it is present and not empty, else "Upload failed"; never empty |
| FileUploader.Uploader.UploadEnabled | src/recon-frontend/src/components/FileUploader.jsx:165 | the upload button is enabled only with both slots filled, and never while uploading |
| FileUploader.Uploader.constructor | src/recon-frontend/src/components/FileUploader.jsx:9-12 | both slots empty, not uploading, no error, upload button disabled |
| FileUploader.Uploader.OnDropInternal | src/recon-frontend/src/components/FileUploader.jsx:14-22 | an accepted CSV of at most 10 MiB fills the internal slot and clears the error; otherwise the slot is kept and the error is set; the provider slot never changes |
| FileUploader.Uploader.OnDropProvider | src/recon-frontend/src/components/FileUploader.jsx:24-32 | the same for the provider slot, leaving the internal slot unchanged |
| FileUploader.Uploader.StartUpload | src/recon-frontend/src/components/FileUploader.jsx:60-71 | with a slot empty: "Please select both files" and no request; otherwise a request with both files, uploading set, error cleared |
| FileUploader.Uploader.CompleteUpload | src/recon-frontend/src/components/FileUploader.jsx:73-85 | the result is passed on iff the request succeeded; on failure the error shows FailureMessage; uploading is cleared either way |
| Reconciliation.LastDot | backend/recon-backend/src/routes/reconciliation.py:21 | the position of the last '.', or none when the name has no '.' |
| Reconciliation.AllowedFile | backend/recon-backend/src/routes/reconciliation.py:20-21 | an allowed name contains a '.', and its fourth character from the end is that '.' |
| Reconciliation.AllowedFileSuffix | backend/recon-backend/src/routes/reconciliation.py:20-21 | a file name is allowed iff it ends in ".csv" in any letter case |
| Reconciliation.AcceptedFileNames | backend/recon-backend/src/routes/reconciliation.py:20-21 | "test.csv", "data.CSV" and "data.backup.csv" are allowed |
| Reconciliation.RejectedFileNames | backend/recon-backend/src/routes/reconciliation.py:20-21 | "", "filename", "file.csv.txt" and "test.txt" are refused |
| Reconciliation.Normalize | backend/recon-backend/src/routes/reconciliation.py:39 | same length as the header; each '_' and '-' becomes a space and each upper-case letter its lower case, every other character is kept |
| Reconciliation.KeywordScore | backend/recon-backend/src/routes/reconciliation.py:42-46 | the number of positions of the keyword list whose keyword occurs in the text; hence at most the list's length, and zero iff no keyword occurs |
| Reconciliation.UnderscoreKeywordNeverMatches | backend/recon-backend/src/routes/reconciliation.py:29-42 | a keyword containing '_' never occurs in a normalised header |
| Reconciliation.Scores | backend/recon-backend/src/routes/reconciliation.py:42-55 | one score per standard field, each the number of that field's keywords that occur in the normalised header |
| Reconciliation.BestIndex | backend/recon-backend/src/routes/reconciliation.py:57-59 | its score is the maximum, and every earlier field scores strictly less (the first maximum wins) |
| Reconciliation.Step | backend/recon-backend/src/routes/reconciliation.py:57-62 | a scoring header is taken up under its best field, with its score as confidence, when that field is free or the header beats the recorded confidence; otherwise nothing changes |
| Reconciliation.MapColumns | backend/recon-backend/src/routes/reconciliation.py:27-64 | the loop returns exactly the mapping of the header-by-header fold Mapped |
| Reconciliation.MappedWinner | backend/recon-backend/src/routes/reconciliation.py:27-64 | a field is mapped iff some header is a candidate for it (a positive top score with that field as best), and then it holds a candidate that scores strictly more than every earlier candidate and at least as much as every later one |
| Reconciliation.FirstHighestScoreWins | backend/recon-backend/src/routes/reconciliation.py:27-64 | the first candidate with the highest score is exactly the header the field is mapped to |
| Reconciliation.MappedExplained | backend/recon-backend/src/routes/reconciliation.py:38-62 | both dicts have the same keys; each value is an input header with a positive top score whose best field is its key, and its confidence is that score |
| Reconciliation.MappingKeysAndValues | backend/recon-backend/src/routes/reconciliation.py:58-62 | every key is a standard field, and every value is one of the headers |
| Reconciliation.MappingInjective | backend/recon-backend/src/routes/reconciliation.py:58-62 | two fields never get the same header |
| Reconciliation.UnscoredHeadersIgnored | backend/recon-backend/src/routes/reconciliation.py:57-58 | headers that match no keyword produce an empty mapping |
| Reconciliation.SingleHeaderTieBreak | backend/recon-backend/src/routes/reconciliation.py:49-59 | a single scoring header maps to its best field alone, and any other field scores lower or ties at a later position |
| Reconciliation.EarlierHeaderKept | backend/recon-backend/src/routes/reconciliation.py:60-62 | a later header that does not beat the recorded confidence leaves the mapping unchanged |
| Reconciliation.LaterHeaderWins | backend/recon-backend/src/routes/reconciliation.py:60-62 | a later header with a strictly higher score replaces the earlier one |
| Reconciliation.OneSidedRowAsWritten | backend/recon-backend/src/routes/reconciliation.py:145-150 | as written, a one-sided row keeps only the columns found under their own name in the merged frame |
| Reconciliation.SharedColumnDroppedAsWritten | backend/recon-backend/src/routes/reconciliation.py:139-150 | with "amount" in both files, the as-written internal-only row loses its amount, while the corrected row keeps it |
| Reconciliation.OneSidedRow | backend/recon-backend/src/routes/reconciliation.py:145-150 | corrected: a one-sided row keeps every column of its own file that it has |
| Reconciliation.MatchedRows | backend/recon-backend/src/routes/reconciliation.py:139-162 | matched references are those in both files; each keeps both rows; a flag is true iff its column is not on both sides or the two values are equal |
| Reconciliation.OneSidedRowsAsWritten | backend/recon-backend/src/routes/reconciliation.py:145-150 | the one-sided lists as the code builds them: the references of one file missing from the other, each row cut down to the columns that survive the merge under their own name |
| Reconciliation.OneSidedRows | backend/recon-backend/src/routes/reconciliation.py:148-150 | the corrected one-sided lists: the references of one file missing from the other, each with every column of its own file |
| Reconciliation.Summarize | backend/recon-backend/src/routes/reconciliation.py:167-175 | the three category sizes and the numbers of amount and status mismatches, neither above the matched count |
| Reconciliation.Reconcile | backend/recon-backend/src/routes/reconciliation.py:132-182 | an error with the fixed message iff either file lacks transaction_reference; otherwise the matched rows with their flags, the one-sided rows cut down as the code does it, and the summary of those parts |
| Reconciliation.ReconcileCorrected | backend/recon-backend/src/routes/reconciliation.py:132-182 | the same error condition and matched rows as Reconcile, with one-sided rows that keep every column of their own file |
| Reconciliation.CorrectionOnlyAddsColumns | backend/recon-backend/src/routes/reconciliation.py:145-150 | the correction changes only the one-sided rows' columns: the same error, matched rows, category references and summary, and each as-written row is part of the corrected row |
| Reconciliation.OneSidedRowsOfWellFormed | backend/recon-backend/src/routes/reconciliation.py:139-150 | for frames whose rows carry their own reference: as written, every one-sided row still has its reference; corrected, every one-sided row is the original row |
| Reconciliation.CategoriesPartition | backend/recon-backend/src/routes/reconciliation.py:139-150 | the three categories are disjoint and together hold every reference of both files, as written and corrected |
| Reconciliation.SummaryCountsAddUp | backend/recon-backend/src/routes/reconciliation.py:167-175 | matched plus internal-only gives the internal count; matched plus provider-only gives the provider count; all three give the distinct references; mismatches are at most the matched count; the corrected reconciliation has the same summary |
| Reconciliation.NoSharedAmountNoMismatch | backend/recon-backend/src/routes/reconciliation.py:153-156 | without an amount column on both sides there are no amount mismatches |
| Reconciliation.MismatchFlagsExample | backend/recon-backend/src/routes/reconciliation.py:153-161 | TXN002 at 200 Pending against 250 Completed is the only amount and the only status mismatch |
| Reconciliation.MixedReconciliationExample | backend/recon-backend/src/routes/reconciliation.py:132-182 | two shared references and one on each side give counts 2, 1 and 1, with one amount and one status mismatch |
| Reconciliation.MixedOneSidedRowsExample | backend/recon-backend/src/routes/reconciliation.py:139-150 | in the same example the internal-only TXN003 keeps only its reference as written, and its whole row once corrected |
| Reconciliation.EmptyFramesExample | backend/recon-backend/src/routes/reconciliation.py:132-182 | two empty files reconcile to empty categories and zero counts |
| Report.DashboardSummary | backend/recon-backend/src/routes/reconciliation.py:167-175 | the dashboard receives the three counts and both mismatch counters unchanged |
| Report.DashboardTotalCountsReferences | src/recon-frontend/src/components/SummaryDashboard.jsx:22 | for a reconciled summary, the dashboard's total is the number of distinct references in both files |

## Left out

- Floating point: amounts and all numbers are integers. `toFixed(1)` is modelled as exact rounding half up on tenths, not as binary double rounding.
- Unicode case mapping: `toLowerCase`, `toUpperCase` and Python's `lower` are modelled on ASCII letters only.
- Values.Less: compares strings by Unicode scalar value, where JavaScript's `<` compares UTF-16 code units. The two orders differ only between a character above U+FFFF and one from U+E000 to U+FFFF.
- Column order: a record is a map, so `Object.keys` insertion order and the CSV column order are not modelled. Header and cell maps are keyed by column.
- JavaScript's loose comparison of values of different types is not modelled: mixed kinds in one sort column are ordered null < boolean < number < string. A missing field sorts as null.
- The CSV text itself: Papa.unparse serialisation, Blob construction and the file-saver call are not modelled. A download is modelled as a file name plus a body: the records, or the server's response.
- Network calls (axios), the console log on export failure, and `onReconciliationComplete` are left out. Each asynchronous handler is split into a start method and a completion method that takes the response as a parameter. Interleavings of overlapping requests are not modelled.
- react-dropzone's own checks (accept list, maxSize, multiple) are left out, and so are drag-active styling and the charts.
- A `data` prop that is null or undefined is modelled as the empty list.
- detect_anomalies (IsolationForest, variance and risk levels) is not part of this model, and neither are the `anomalies` and `high_risk` counts that depend on it. They reach the dashboard as absent counters.
- pandas details: duplicate references on one side (the merge would multiply rows), NaN comparisons, row order of the result lists, and the `_internal`/`_provider` renaming of matched rows in the JSON output. Frames are modelled as maps from reference to row, so references are unique; a matched row carries both original rows. The one-sided rows do follow the code's column filter.
- Reconciliation.MatchedRows: treats a flag column as present on both sides iff both files have the plain column. It does not cover a file that already has a column literally named `amount_internal` or `status_provider`.
- The Flask routes (upload_and_reconcile, export_csv, the results cache, session ids and file storage) are not part of this model.
- The test-suite header lists for map_columns are not restated as concrete lemmas. The general mapping lemmas above cover their behaviour.

## Findings

| source | as written | input that shows it | evidently intended | confidence | as-written member | corrected member |
|---|---|---|---|---|---|---|
| backend/recon-backend/src/routes/reconciliation.py:145-150 | internal-only and provider-only rows keep only the columns of `df.columns` that also appear in the merged frame, but the merge renames every non-key column that both files have to `<col>_internal` / `<col>_provider` | both files with columns transaction_reference, amount and status; the internal-only TXN003 keeps its reference and loses its amount and status (Reconciliation.MixedOneSidedRowsExample) | a one-sided row keeps all of its own file's columns | not executed | Reconciliation.Reconcile | Reconciliation.ReconcileCorrected |
