# Election dashboard front-end: poll aggregation, spreadsheet export and upload state

This project models the data-handling core of a small election dashboard front-end.
The page code is written in TypeScript/React; this model is in Dafny.

- **Poll chart** (`PollAggregation`, `ResultNormalization`). The page fetches poll records
  `{id, idPesquisa, candidato, resultado, dataPesquisa, created_at}`. It groups them into
  `dadosAgrupados`, an object from a formatted date to a `{candidato: value}` object, visiting
  the records with one `forEach`. That loop is the method `GroupByDate`, proved equal to the
  fold `Grouping`. Before `parseFloat`, each `resultado` text is cleaned with
  `replace("%", "").replace(",", ".")`; this is `Normalize`. The grouped object is then
  flattened into the dense chart series `{data, A, B}` (`SeriesData`, `PollSeries`), where a
  missing or NaN value is shown as 0.
- **Spreadsheet export** (`SpreadsheetExport`). `exportToExcel` builds three row lists from the
  backend's `RespostaBackend`: one row per municipality and one per state, with the two tallies
  defaulted to 0, plus a single national-summary row.
- **Upload page state** (`UploadFlow.UploadPage`). A class holding the page's three state cells
  `file`, `uploadProgress` and `excelData`. Its methods are the file-input handler, the upload
  progress callback and `handleUpload`.

Parameters stand in for what the browser and the network provide:

- `formatarData` (Date and Intl.DateTimeFormat) is a function `string -> string`.
- `parseFloat` is a function `string -> Option<real>`, where `None` is NaN.
- The upload's progress events are a sequence passed to `HandleUpload`.
- How the POST ends is a `PostOutcome` value.

What the code does, on points that are easy to misread:

- Only the FIRST '%' of a result text is removed, wherever it is, and only the first ',' becomes
  '.'. A second '%' or ',' survives.
- The input order matters. Dates appear in the order they are first seen, and a later record for
  the same date and candidate overwrites an earlier one.
- Records for candidates other than "A" and "B" never change a point's values. They still create
  a point for their date, with A = B = 0 when nothing else is recorded for that date.
- `handleUpload` does not reset the progress to 0 when an upload starts. It resets it only in
  `finally`.
- A response with an empty body leaves `excelData` as it was.

## Model

| member | source | states |
|---|---|---|
| ResultNormalization.ReplaceFirst | src/app/page/grafico_votacao/page.tsx:57 | `s.replace(c, rep)` for a one-character pattern; specified by `ReplaceFirstAbsent`, `ReplaceFirstAt` and `SplitAtFirst` |
| ResultNormalization.ReplaceFirstAbsent | src/app/page/grafico_votacao/page.tsx:57 | `replace` with a pattern that does not occur returns the text unchanged |
| ResultNormalization.ReplaceFirstAt | src/app/page/grafico_votacao/page.tsx:57 | `replace` rewrites only the first occurrence; everything after it, later occurrences included, is kept |
| ResultNormalization.SplitAtFirst | src/app/page/grafico_votacao/page.tsx:57 | a text containing the pattern splits at its first occurrence, and `replace` puts the replacement exactly there |
| ResultNormalization.Normalize | src/app/page/grafico_votacao/page.tsx:56-58 | the text handed to `parseFloat`; specified by `NormalizeUnchanged`, `NormalizeDecimal`, `NormalizeKeepsOrder` and `NormalizeCounts` |
| ResultNormalization.NormalizeUnchanged | src/app/page/grafico_votacao/page.tsx:56-58 | a text with neither '%' nor ',' reaches `parseFloat` unchanged |
| ResultNormalization.NormalizeDecimal | src/app/page/grafico_votacao/page.tsx:56-58 | a Brazilian percentage "int,frac%" becomes the decimal "int.frac" |
| ResultNormalization.NormalizeKeepsOrder | src/app/page/grafico_votacao/page.tsx:56-58 | every character other than '%', ',' and '.' survives, in its original order |
| ResultNormalization.NormalizeCounts | src/app/page/grafico_votacao/page.tsx:56-58 | exactly one '%' is removed when present, exactly one ',' turns into '.' when present, and no other character count changes |
| PollAggregation.IndexOf | src/app/page/grafico_votacao/page.tsx:60 | the property lookup: the position of the date among the keys, or the key count exactly when the date is absent |
| PollAggregation.Assign | src/app/page/grafico_votacao/page.tsx:60-63 | one pass of the `forEach` body; specified by `AssignKeepsEntries` |
| PollAggregation.Grouping | src/app/page/grafico_votacao/page.tsx:52-64 | `dadosAgrupados` after all the records; specified by `GroupingKeysFirstSeen`, `GroupingLastWriteWins` and `GroupingGrows`, and computed by `GroupByDate` |
| PollAggregation.GroupByDate | src/app/page/grafico_votacao/page.tsx:52-64 | the `forEach` loop leaves `dadosAgrupados` equal to the grouping of all the records, in order |
| PollAggregation.AssignKeepsEntries | src/app/page/grafico_votacao/page.tsx:60-63 | one record creates its date's bucket only when the date is new, appends it last, sets only its candidate's entry, and leaves every other bucket alone |
| PollAggregation.GroupingKeysFirstSeen | src/app/page/grafico_votacao/page.tsx:52-64 | the dates are distinct, are exactly those of the records, and appear in first-seen order |
| PollAggregation.GroupingLastWriteWins | src/app/page/grafico_votacao/page.tsx:54-64 | a bucket has a candidate's entry exactly when some record was for that date and candidate, and the entry holds the last such record's value |
| PollAggregation.LastWriteWinsBucket | src/app/page/grafico_votacao/page.tsx:54-64 | the same statement for one bucket and one candidate |
| PollAggregation.LastWriteExists | src/app/page/grafico_votacao/page.tsx:54-64 | every record for a date and candidate is followed by a last such record |
| PollAggregation.GroupingGrows | src/app/page/grafico_votacao/page.tsx:54-64 | after a prefix of the records, the order of the dates seen so far is final and no bucket loses an entry later |
| PollAggregation.OrZero | src/app/page/grafico_votacao/page.tsx:69-70 | `x \|\| 0` is 0 exactly when the entry is missing, NaN or 0, and otherwise is the stored number |
| PollAggregation.SeriesData | src/app/page/grafico_votacao/page.tsx:66-72 | the `Object.keys(...).map` flattening into dense points; specified, with `Grouping`, by `SeriesFromLastWrites` |
| PollAggregation.PollSeries | src/app/page/grafico_votacao/page.tsx:52-72 | the series drawn for the records; specified by `SeriesFromLastWrites`, `SeriesIgnoresOtherCandidates`, `SeriesEmptyIff` and `SeriesOneDay` |
| PollAggregation.SeriesFromLastWrites | src/app/page/grafico_votacao/page.tsx:52-72 | one point per distinct date, in first-seen order; A and B are the last value recorded for that date and candidate, or 0 when none was recorded |
| PollAggregation.SeriesIgnoresOtherCandidates | src/app/page/grafico_votacao/page.tsx:63-71 | inputs that differ only in the candidate or text of records for candidates other than "A" and "B", at the same positions and dates, draw the same series |
| PollAggregation.SeriesEmptyIff | src/app/page/grafico_votacao/page.tsx:52-72 | the series is empty exactly when there are no records |
| PollAggregation.SeriesOneDay | src/app/page/grafico_votacao/page.tsx:52-72 | an "A" record and a "B" record for the same day give the single point (day, A, B) |
| SpreadsheetExport.VotesOrZero | src/app/page/upload_csv/page.tsx:41-42 | `votos.X \|\| 0` keeps a non-zero count and gives 0 exactly for a missing, null, NaN or zero count |
| SpreadsheetExport.TallyRows | src/app/page/upload_csv/page.tsx:38-52 | one row per entry, in entry order, with the name and both defaulted tallies of that entry |
| SpreadsheetExport.ExportToExcel | src/app/page/upload_csv/page.tsx:35-61 | the municipality and state rows come from their records, and the national sheet has exactly one row carrying the four summary fields |
| SpreadsheetExport.TallyRowsRoundTrip | src/app/page/upload_csv/page.tsx:38-52 | reading the rows back gives the entries in order with defaulted tallies; complete entries come back unchanged |
| SpreadsheetExport.RowsFromTheirEntries | src/app/page/upload_csv/page.tsx:38-52 | every row list is produced by exactly the entries it stands for |
| SpreadsheetExport.TallyRowsIgnoreDefaulting | src/app/page/upload_csv/page.tsx:41-42 | filling in the missing tallies beforehand changes no row |
| UploadFlow.RoundPercent | src/app/page/upload_csv/page.tsx:84 | `Math.round(loaded*100/total)` is the nearest integer to the exact percentage, with halves rounded up |
| UploadFlow.RoundPercentBounded | src/app/page/upload_csv/page.tsx:83-85 | the percentage lies in 0..100 while no more than the total has been sent |
| UploadFlow.RoundPercentMonotone | src/app/page/upload_csv/page.tsx:84 | more bytes sent never shows a smaller percentage |
| UploadFlow.ProgressUpdates | src/app/page/upload_csv/page.tsx:82-87 | the values the progress callback sets, one per event with a truthy total; specified by `ProgressUpdatesBounded` and `ProgressUpdatesMonotone`, and tied to `HandleUpload` by its `shown` result |
| UploadFlow.ProgressUpdatesBounded | src/app/page/upload_csv/page.tsx:82-87 | every value the callback shows lies in 0..100 |
| UploadFlow.ProgressUpdatesMonotone | src/app/page/upload_csv/page.tsx:82-87 | with one known total and growing byte counts, one value is shown per event and the values never go down |
| UploadFlow.UploadPage.constructor | src/app/page/upload_csv/page.tsx:25-27 | the page starts with no file, progress 0 and no result |
| UploadFlow.UploadPage.HandleFileChange | src/app/page/upload_csv/page.tsx:29-33 | the first chosen file is selected; a missing or empty file list changes nothing |
| UploadFlow.UploadPage.OnUploadProgress | src/app/page/upload_csv/page.tsx:82-87 | the progress is set to the rounded percentage only when the event has a truthy total |
| UploadFlow.UploadPage.HandleUpload | src/app/page/upload_csv/page.tsx:71-121 | with no file nothing is posted and nothing changes. Otherwise the file is posted and the progress values shown are those of the events. `excelData` is replaced only by a non-empty response, and the progress ends at 0 |

## Left out

- The HTTP requests are not modelled: `GET /pesquisas` with `fetchPesquisas`/`setPesquisas`, and `POST /processar-votos`. The records fetched, the progress events and how the POST ends are inputs.
- Date handling is not modelled: `formatarData` is an uninterpreted function. The invalid-date `RangeError` it can throw is not modelled.
- `parseFloat` is an uninterpreted function. The distinction between -0 and 0 is not modelled, because `|| 0` maps both to 0.
- Object key order is not derived: a plain object in JavaScript lists integer-like keys first. The formatted dates contain '/' and are never integer-like, so insertion order holds for `dadosAgrupados`. The backend's `votosPorMunicipio`/`votosPorEstado` are taken as the entry lists `Object.entries` returns.
- Candidate and date names that collide with `Object.prototype` members, such as "constructor", are not modelled.
- A tally record that is itself null or undefined is not modelled. The page would throw reading `votos.B`.
- The workbook output is not modelled: workbook creation, the sheet names, the column headers as strings, and the download of "resultado.xlsx" (`XLSX.utils`, `XLSX.writeFile`). The model stops at the row lists.
- The user interface is not modelled: toasts, the "Selecione um arquivo" alert, rendering, the chart's axis domain and ticks, and the `toFixed(2)` tooltip formatting.
- RoundPercent: computed on exact integers rather than IEEE doubles, so the floating-point rounding of `loaded*100/total` is not captured.
- HandleUpload: React state batching and two uploads running at once are not modelled. The method runs the whole upload as one atomic step.
- The backend address configuration module is not part of this model.
