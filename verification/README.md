# COVID-19 report capture from the Polish Health Ministry's tweets — a Dafny model

The script `code/TwitterCaptureImagesHQSR-MZ_GOV_PL.py` runs as a daily batch job. It does four things:

1. It scrapes the Ministry's tweets and keeps the daily report tweets, those whose text contains `Dzienny raport o`.
2. It reads four numbers off each report's image with OCR: hospitalized, quarantined, supervised and recovered.
3. It logs every OCR string that is not a number to an error-correction file, unless that line was already in the file when the run started.
4. It merges the numbers into the local day-by-day data table. The merge is anchored at the row whose date is the newest report's date.

This project models that decision and matching logic and proves what it guarantees. It has these modules:

- `Options`: an option type.
- `Text`: substring search, ASCII digit strings and their values, decimal rendering.
- `Calendar`: dates and timestamps, chronological order, and the `%m/%d/%Y` rendering with a proof that it is injective.
- `Seqs`: order-preserving filtering.
- `Selection`: the marker filter and the choice of OCR routine by timestamp.
- `Validation`: the labels, the numeric check, the report row and the OCR errors.
- `CorrectionFile`: the start-up fix of the correction file and the deduplicated correction lines.
- `CaptureLoop`: the loop over the reports, the error flag, and the appending of corrections.
- `Splice`: the anchor search and the merge into the data table.

The OCR routines `ocr_hqsr` and `ocr_hqsr_old` are parameters of type `Tweet -> seq<string>`. Their source file is not part of this model. The contents of the correction file are a parameter too. The tables are sequences of records.

## Model

| member | source | states |
|---|---|---|
| Selection.FilterReportsSpec | code/TwitterCaptureImagesHQSR-MZ_GOV_PL.py:85-103 | A tweet is in the report table iff it was scraped and its text exists and contains `Dzienny raport o`. Each kept tweet occurs as often as it was scraped. Scraping order is kept: filtering distributes over concatenation. Filtering twice changes nothing. |
| Text.ContainsIff | code/TwitterCaptureImagesHQSR-MZ_GOV_PL.py:179 | The substring test used for the marker and for `new_error in errcorrectfile_str` holds exactly when the pattern occurs at some position of the text. |
| Calendar.BeforeIsStrictTotalOrder | code/TwitterCaptureImagesHQSR-MZ_GOV_PL.py:154-156 | Timestamp comparison is irreflexive, asymmetric, transitive and total. So `d1 >= d2` is exactly "not before". |
| Selection.RoutineForCutover | code/TwitterCaptureImagesHQSR-MZ_GOV_PL.py:154-159 | The new-layout routine is chosen exactly for tweets at or after 2020-04-16 09:00:34. The old-layout routine is chosen exactly for earlier tweets. |
| Selection.RoutineMonotone | code/TwitterCaptureImagesHQSR-MZ_GOV_PL.py:154-159 | Once a tweet is read with the new-layout routine, every tweet that is not earlier is read with it too. |
| Selection.OcrNumbersByCutover | code/TwitterCaptureImagesHQSR-MZ_GOV_PL.py:154-159 | The numbers of a report are the old routine's reading before the cut-over and the new routine's reading at or after it. |
| Validation.Classify | code/TwitterCaptureImagesHQSR-MZ_GOV_PL.py:167-173 | A string becomes an integer cell iff it is numeric, and that integer is the decimal value of its digits, as `int` reads it. Otherwise it is stored as a raw cell holding exactly that string. |
| Validation.ClassifyShowNat | code/TwitterCaptureImagesHQSR-MZ_GOV_PL.py:167-170 | Any number written in decimal, with any number of leading zeros, passes the numeric check, and `int` reads it back as that number. |
| Validation.CaptureOfPairsByPosition | code/TwitterCaptureImagesHQSR-MZ_GOV_PL.py:160-173 | The i-th OCR string fills the i-th label's cell. That cell is an integer iff the string is numeric and raw iff it is not. The row keeps the tweet time. |
| Validation.ErrorsUpToSound | code/TwitterCaptureImagesHQSR-MZ_GOV_PL.py:164-177 | Every error recorded for a report has a non-numeric string among the labels scanned so far, with that label and the tweet time. |
| Validation.ErrorsUpToComplete | code/TwitterCaptureImagesHQSR-MZ_GOV_PL.py:164-177 | Every non-numeric string among the labels scanned so far is recorded as an error. |
| Validation.ErrorsUpToOrdered | code/TwitterCaptureImagesHQSR-MZ_GOV_PL.py:164-177 | A report's errors come in label order. |
| Validation.ErrorsOfSpec | code/TwitterCaptureImagesHQSR-MZ_GOV_PL.py:160-177 | A report's errors are exactly its raw cells, with label and raw string, in label order. There is at least one error iff the row has a raw cell. |
| CorrectionFile.StartupText | code/TwitterCaptureImagesHQSR-MZ_GOV_PL.py:114-132 | After start-up the correction file is non-empty and ends with a newline. An absent or empty file receives the header line. A non-empty file receives one newline exactly when it did not end with one, and nothing else. |
| CorrectionFile.NewErrorsSpec | code/TwitterCaptureImagesHQSR-MZ_GOV_PL.py:177-182 | An error is written iff it was met and its line does not occur in the contents read at start-up. |
| CorrectionFile.CorrectionsStep | code/TwitterCaptureImagesHQSR-MZ_GOV_PL.py:177-182 | Meeting one more error appends its line and a newline when the line is not known yet. It appends nothing when the line is known. |
| CorrectionFile.AppendedByIsCorrections | code/TwitterCaptureImagesHQSR-MZ_GOV_PL.py:177-182 | Checking and printing error by error yields exactly the entries of the errors not yet logged, in the order met. |
| CorrectionFile.EntriesContain | code/TwitterCaptureImagesHQSR-MZ_GOV_PL.py:180 | Every printed error's line, with its newline, occurs in the printed text. |
| CorrectionFile.LoggedAfterRun | code/TwitterCaptureImagesHQSR-MZ_GOV_PL.py:177-182 | After a run, every error it met occurs in the correction file it leaves behind, whether written now or known before. |
| CorrectionFile.NoDuplicatesAcrossRuns | code/TwitterCaptureImagesHQSR-MZ_GOV_PL.py:177-182 | A second run that starts from the file the first run left behind and meets the same errors appends nothing. |
| CorrectionFile.RepeatWithinRunLoggedTwice | code/TwitterCaptureImagesHQSR-MZ_GOV_PL.py:177-182 | Only the start-up contents are consulted. So an unknown error met twice in one run is written twice. |
| CaptureLoop.CheckReport | code/TwitterCaptureImagesHQSR-MZ_GOV_PL.py:164-176 | The per-label loop appends exactly the report's errors, in label order. The flag is set iff some error has been met so far, and once raised it is never reset. |
| CaptureLoop.CaptureReports | code/TwitterCaptureImagesHQSR-MZ_GOV_PL.py:141-176 | Row k is the k-th report's OCR reading paired with the labels, read by the routine its timestamp selects. The errors are those of all reports, in order. The flag is 0 or 1, and it is 1 iff some row holds a raw cell. |
| CaptureLoop.RawCellIffErrors | code/TwitterCaptureImagesHQSR-MZ_GOV_PL.py:134-173 | Some report row has a raw cell iff the run met at least one OCR error. |
| CaptureLoop.AppendCorrections | code/TwitterCaptureImagesHQSR-MZ_GOV_PL.py:177-182 | The text printed to the correction file consists of the lines of the errors not yet logged, each followed by a newline, in the order met. |
| Calendar.FormatUSInjective | code/TwitterCaptureImagesHQSR-MZ_GOV_PL.py:238-251 | Two dates render to the same `%m/%d/%Y` string iff they are the same date. So comparing rendered dates is comparing dates. |
| Splice.Overwrite | code/TwitterCaptureImagesHQSR-MZ_GOV_PL.py:272-279 | Writing a report row sets `Hospitalizowani`, `Kwarantanna`, `Nadzór` and `Wyzdrowiali` to the report's four cells. Every other column is unchanged, and so is the date. |
| Splice.MatchIndexSpec | code/TwitterCaptureImagesHQSR-MZ_GOV_PL.py:243-253 | When some row has the date, the anchor is the largest such index. Otherwise it is 0. |
| Splice.FindNewestRow | code/TwitterCaptureImagesHQSR-MZ_GOV_PL.py:243-253 | The scan over the rendered dates returns the last row with the newest report's date. With no such row it returns 0. |
| Splice.SpliceRows | code/TwitterCaptureImagesHQSR-MZ_GOV_PL.py:260-286 | The loop runs once per report. Report k lands in row anchor−k. Rows outside the window are unchanged. In every row, the date and the columns other than the four are unchanged. |
| Splice.SplicedIdempotent | code/TwitterCaptureImagesHQSR-MZ_GOV_PL.py:260-286 | Merging the same reports again at the same anchor leaves the table as it is. |
| Splice.UpdateTable | code/TwitterCaptureImagesHQSR-MZ_GOV_PL.py:232-286 | The table after the update is the merge at the found anchor. When the table has a row for the newest report's date, the last such row receives the newest report. |
| Splice.DefaultAnchorMisplaces | code/TwitterCaptureImagesHQSR-MZ_GOV_PL.py:243-253 | With no row for the newest report's date, the anchor is row 0. The newest report's numbers land in a row of another date. |
| Splice.DefaultAnchorMisplacesAll | code/TwitterCaptureImagesHQSR-MZ_GOV_PL.py:243-279 | For every non-empty table without a row for the newest report's date and a single report: the anchor is row 0, and row 0, dated otherwise, receives that report's four cells. |
| Splice.UpdateTableAnchored | code/TwitterCaptureImagesHQSR-MZ_GOV_PL.py:243-286 | Corrected update. Nothing is merged iff the table has no row for the newest report's date. Otherwise the merge runs from the last such row, and that row receives the newest report. |

## Left out

- Scraping (`get_tweets`, the DataFrame built from it), image download and writing the images are I/O. A tweet is its optional text and its timestamp.
- The OCR routines `ocr_hqsr` and `ocr_hqsr_old` are function parameters. Their source file is not part of this model.
- The error log file, the messages to standard error and the `ERRFLAG` message at the end are left out. The `datetime.now()` stamp in the log line is left out too. All of these are output only.
- Reading and writing the CSV files, `find_last_local_data_file`, `display` and the export of the captured rows are left out. They are I/O.
- Text.IsNumeric: `str.isnumeric` also accepts Unicode digits and numerals. The model accepts non-empty ASCII digit strings, and `int` is their decimal value.
- Selection.IsReport: `str.contains` searches a regular expression. The marker has no metacharacters, so it is a plain substring search.
- Calendar: the table's `Data` strings are already parsed into dates. Parse failures of `pd.to_datetime` are left out, and dates are not checked for calendar validity.
- Validation.CaptureOf: needs at least four OCR strings. With fewer, the source fails with an index error.
- CaptureLoop.AppendCorrections takes the contents read at start-up. When the correction file did not exist at start-up, the source never sets that variable and fails at the first OCR error. The model does not reproduce that failure.
- pandas stores the four captured columns as floats or mixed objects. The model keeps typed cells.
- Splice.SpliceRows: requires the anchor to lie in the table and to leave room for every report above it. Below row 0 or past the end, `.loc` would add new rows, and that is not modelled.
- Splice.UpdateTable: requires at least one report. With an empty report table the source fails when it reads row 0.
- Report k is paired with row anchor−k whatever the two dates are, as in the source. The model does not check that the tweets are one per day.

## Findings

| source | as written | input that shows it | evidently intended | confidence | as-written member | corrected member |
|---|---|---|---|---|---|---|
| code/TwitterCaptureImagesHQSR-MZ_GOV_PL.py:243-253 | The anchor defaults to row 0 when no row has the newest report's date. The merge then overwrites row 0 and the rows above it. | A one-row table dated 04/01/2020 and one report dated 04/20/2020: row 0 receives the 20 April numbers. | Merge only when the newest report's date is in the table. | medium, not executed | Splice.DefaultAnchorMisplacesAll | Splice.UpdateTableAnchored |
