# Holiday data pipeline and holiday table, modelled in Dafny

This project models the two services at the core of spring-boot-lab:

- `FetchDataService` downloads the Taiwanese government holiday CSV to a temporary file and maps each row to a `Holiday` record. It groups the records by year and writes one `<year>.json` file per year plus a `years.json` index. Every line ending is forced to LF. A `finally` block deletes the temporary file once `downloadToTempFile` has returned its path; a failure inside the download leaves it behind (see Findings).
- `PdfService.generateHtmlWithAlternativeList` builds the HTML page of the holiday PDF. The model covers its `<tbody>` loop (one row per holiday, with a formatted date, a badge, escaped text cells and an optional note), the numbered twelve-item test list, and `escapeHtml`.

Modules, one per concern of the source:

| file | module | what it models |
|---|---|---|
| `base.dfy` | `Base` | `Option` / `Result` |
| `java_text.dfy` | `JavaText` | `String.replace`, `endsWith`, `StringBuilder.append(int)` and `append(String)` |
| `holidays.dfy` | `Holidays` | the `Holiday` record (nullable string fields) |
| `csv_mapping.dfy` | `CsvMapping` | `mapToHoliday` and the record loop of `parseCsvFile` |
| `grouping.dfy` | `Grouping` | `groupByYear` |
| `year_index.dfy` | `YearIndex` | the descending sort of `writeYearsIndex` |
| `line_endings.dfy` | `LineEndings` | the text `writeJsonWithLf` writes |
| `output_files.dfy` | `OutputFiles` | output file naming, and the output directory as a map from name to text |
| `pipeline.dfy` | `Pipeline` | `fetchAndProcess` and its stages, as a `Workspace` class whose fields the stages update |
| `html_escape.dfy` | `HtmlEscape` | `escapeHtml` |
| `html_tags.dfy` | `HtmlTags` | a reading of generated HTML as its sequence of tags |
| `html_table.dfy` | `HtmlTable` | the `<tbody>` row loop |
| `html_list.dfy` | `HtmlList` | the numbered `<ol>` loop |

The outside world of `fetchAndProcess` is an `Environment` value. It records which I/O calls throw and what the download delivers, as already tokenised CSV rows. Jackson's `ObjectMapper.writeValueAsString` is the function `json` of the environment. Its output is left uninterpreted; only what `writeJsonWithLf` does to that text is modelled.

## Model

| member | source | states |
|---|---|---|
| CsvMapping.MapToHoliday | src/main/java/com/example/springbootlab/service/FetchDataService.java:186-195 | A row maps exactly when it has all six columns. Date, year, name, category and description are the cells unchanged. `isHoliday` is true if and only if the `isholiday` cell is exactly "是" (line 69). The note stays null. A missing column fails with that column: the first one missing in read order. |
| CsvMapping.MapRowsSpec | src/main/java/com/example/springbootlab/service/FetchDataService.java:159-161 | Mapping a file succeeds exactly when every row maps. It then yields one record per row, the i-th record being row i's. Otherwise it fails with the error of the first row that does not map. |
| CsvMapping.ParseRecords | src/main/java/com/example/springbootlab/service/FetchDataService.java:147-164 | The append loop of `parseCsvFile` yields the specification `MapRows`: one record per row in row order, or the first row's error. |
| CsvMapping.FirstErrorIsUnique | src/main/java/com/example/springbootlab/service/FetchDataService.java:159-161 | When row k is the first row that fails, the loop's result is row k's error. |
| Grouping.GroupByYear | src/main/java/com/example/springbootlab/service/FetchDataService.java:203-206 | The keys are exactly the distinct years of the input, and the empty year is an ordinary key. The group of each key holds the records of that year, in input order. |
| Grouping.GroupKeepsInputOrder | src/main/java/com/example/springbootlab/service/FetchDataService.java:203-206 | The group of year y lists, in increasing order, the positions of exactly the records whose year is y. |
| Grouping.RecordInOwnGroup | src/main/java/com/example/springbootlab/service/FetchDataService.java:203-206 | Every record lies in the group keyed by its own year. |
| Grouping.NoRecordsOfAbsentYear | src/main/java/com/example/springbootlab/service/FetchDataService.java:203-206 | A year no record has selects no record. |
| Grouping.GroupSizesSumToInput | src/main/java/com/example/springbootlab/service/FetchDataService.java:203-206 | Summed over the keys, each listed once, the group sizes equal the number of input records. |
| YearIndex.LexLessTransitive | src/main/java/com/example/springbootlab/service/FetchDataService.java:235-236 | The string order used by the sort is transitive. LexLessIrreflexive, LexLessTotal and LexLessAsymmetric state that it is a strict total order. |
| YearIndex.InsertDescending | src/main/java/com/example/springbootlab/service/FetchDataService.java:235-236 | Inserting a new key into a strictly descending list keeps it strictly descending and adds exactly that key. |
| YearIndex.SortDescending | src/main/java/com/example/springbootlab/service/FetchDataService.java:235-237 | The sorted key list is a permutation of the distinct keys, in strictly descending string order. |
| YearIndex.SortedIndexListsKeysOnce | src/main/java/com/example/springbootlab/service/FetchDataService.java:235-237 | The index holds every key and nothing else, each once, and has as many entries as there are keys. |
| YearIndex.DescendingIsUnique | src/main/java/com/example/springbootlab/service/FetchDataService.java:235-237 | Two strictly descending lists of the same keys are equal. The index therefore does not depend on the hash map's key order. |
| YearIndex.ListingHasSetSize | src/main/java/com/example/springbootlab/service/FetchDataService.java:235 | A duplicate-free listing of a key set has the set's size. |
| LineEndings.NormalizeLfIsOnePass | src/main/java/com/example/springbootlab/service/FetchDataService.java:255 | The two chained `replace` calls equal one left-to-right pass: "\r\n" becomes "\n", a lone "\r" becomes "\n", and any other character is kept. |
| LineEndings.NormalizeOnePass | src/main/java/com/example/springbootlab/service/FetchDataService.java:255 | The normalised text holds no "\r". |
| LineEndings.NormalizeKeepsContent | src/main/java/com/example/springbootlab/service/FetchDataService.java:255 | Every character other than "\r" and "\n" survives normalisation, unchanged and in order. |
| LineEndings.NormalizeKeepsLfText | src/main/java/com/example/springbootlab/service/FetchDataService.java:255 | Text without "\r" is left as it is. |
| LineEndings.NormalizeIdempotent | src/main/java/com/example/springbootlab/service/FetchDataService.java:255 | Normalising twice gives the same text as normalising once. |
| LineEndings.WrittenText | src/main/java/com/example/springbootlab/service/FetchDataService.java:255-260 | The written text holds no "\r" and ends with "\n". A final "\n" is added only when the normalised text lacks one. |
| LineEndings.WrittenTextFixesNormalText | src/main/java/com/example/springbootlab/service/FetchDataService.java:255-260 | Text already in written form is written unchanged. |
| OutputFiles.FileNameRoundTrip | src/main/java/com/example/springbootlab/service/FetchDataService.java:222 | `<key>.json` gives back its key, and a name that gives back a key is that key's file name. |
| OutputFiles.FileNameInjective | src/main/java/com/example/springbootlab/service/FetchDataService.java:222 | Distinct keys get distinct file names. |
| OutputFiles.YearsFileIsAYearlyName | src/main/java/com/example/springbootlab/service/FetchDataService.java:239 | The index file `years.json` is the yearly file of the key "years", and of no other key. |
| OutputFiles.FilesForAll | src/main/java/com/example/springbootlab/service/FetchDataService.java:218-225 | There is one output file per key, named after it and holding its text, and no other file. |
| OutputFiles.FilesForAdd | src/main/java/com/example/springbootlab/service/FetchDataService.java:222-223 | Writing one more key's file extends the files written so far by exactly that file. |
| OutputFiles.FilesForWithin | src/main/java/com/example/springbootlab/service/FetchDataService.java:218-225 | The files of some of the keys are among the files of all keys, with the same text. |
| Pipeline.YearlyFiles | src/main/java/com/example/springbootlab/service/FetchDataService.java:218-225 | The yearly files correspond one to one with the group keys. Each is named `<key>.json` and holds the written text of Jackson's serialisation of its group. |
| Pipeline.ParsedRecordsHaveYears | src/main/java/com/example/springbootlab/service/FetchDataService.java:189 | Every parsed record has a year, so grouping never meets a null key. |
| Pipeline.FailureStopsLaterStages | src/main/java/com/example/springbootlab/service/FetchDataService.java:90-118 | The stages run in the order download, parse, yearly files, index. A completed run ran all four. After a logged I/O error, the last stage run is the one that threw. A bad URL stops the run after the download, and a missing column after the parse. |
| Pipeline.TempLeaksOnBadUri | src/main/java/com/example/springbootlab/service/FetchDataService.java:128-138 | With a malformed URL, the run ends with the URL error logged, and the temporary file it created is left behind although deleting it would succeed. |
| Pipeline.StagesAfterDownloadMatch | src/main/java/com/example/springbootlab/service/FetchDataService.java:97-108 | After a successful download, the stages run are the download followed by those the downloaded rows lead to. |
| Pipeline.Workspace.constructor | src/main/java/com/example/springbootlab/service/FetchDataService.java:90-91 | A workspace starts with no temporary files, the given output directory and no stage started. |
| Pipeline.Workspace.CreateTempFile | src/main/java/com/example/springbootlab/service/FetchDataService.java:129 | On success it adds one fresh temporary file; when creation throws, nothing changes. |
| Pipeline.Workspace.Transfer | src/main/java/com/example/springbootlab/service/FetchDataService.java:131-135 | A malformed URL is a `URISyntaxException`, a failed transfer an `IOException`; otherwise the downloaded rows are returned. |
| Pipeline.Workspace.DownloadToTempFile | src/main/java/com/example/springbootlab/service/FetchDataService.java:128-138 | A path is returned exactly when creation and transfer both succeed. The temporary file exists whenever its creation succeeded, even when the method then throws. |
| Pipeline.Workspace.ParseCsvFile | src/main/java/com/example/springbootlab/service/FetchDataService.java:147-164 | An unreadable file is an `IOException`. A missing column is the unchecked error of the first failing row. Otherwise the result is the records of `MapRows`. No file changes. |
| Pipeline.Workspace.WriteJsonWithLf | src/main/java/com/example/springbootlab/service/FetchDataService.java:251-262 | A successful write sets the file to the written text of Jackson's output; a failing write is reported and leaves the files unchanged. |
| Pipeline.Workspace.WriteGroupFile | src/main/java/com/example/springbootlab/service/FetchDataService.java:219-223 | One loop pass writes the file of one group and extends the files written so far by exactly that file. |
| Pipeline.Workspace.WriteGroupFiles | src/main/java/com/example/springbootlab/service/FetchDataService.java:218-225 | The loop succeeds exactly when no group's file write throws. On success the directory gains every group's file; after a failure it gains the files of the groups written so far, and no other change is made. |
| Pipeline.Workspace.WriteYearlyJsonFiles | src/main/java/com/example/springbootlab/service/FetchDataService.java:214-226 | It succeeds exactly when the directory can be created and every yearly write succeeds. The directory then holds what it held before plus the files of the groups written. |
| Pipeline.Workspace.WriteYearsIndex | src/main/java/com/example/springbootlab/service/FetchDataService.java:234-242 | The index lists every key once, in strictly descending order. It is written to `years.json` unless that write throws. |
| Pipeline.Workspace.CleanupTempFile | src/main/java/com/example/springbootlab/service/FetchDataService.java:269-281 | A null path is a no-op, and a delete that throws changes nothing. Otherwise exactly that temporary file is removed. |
| Pipeline.Workspace.WriteOutputs | src/main/java/com/example/springbootlab/service/FetchDataService.java:105-108 | The index is written only after every yearly file. On completion the directory is the old one plus every yearly file plus `years.json`. When the index write throws, every yearly file stays written. When the yearly stage throws, the files of the groups written before the failure stay and nothing else is added. |
| Pipeline.Workspace.ProcessDownloaded | src/main/java/com/example/springbootlab/service/FetchDataService.java:100-108 | Parse, group and write end as the outcome function says. The stages start in order and stop at the first failure. A parse failure leaves the directory unchanged. A failed index write leaves every yearly file; a failed yearly stage leaves the files of the groups written so far; a completed run leaves those plus the index. |
| Pipeline.Workspace.FetchAndProcess | src/main/java/com/example/springbootlab/service/FetchDataService.java:90-118 | The run ends as the outcome function says, and the stages run are those `FailureStopsLaterStages` describes. Without a successful parse no file changes. A completed run leaves every yearly file and the index. A failed index write leaves every yearly file, and a failed yearly stage the files of some groups, with nothing rolled back. A temporary file is left exactly in the cases `TempLeftAsWritten` names. |
| Pipeline.Workspace.FetchAndProcessCorrected | src/main/java/com/example/springbootlab/service/FetchDataService.java:90-118 | Outcome, stages and files are the same as for `FetchAndProcess`, in every case. A temporary file is left exactly when it was created and deleting it threw, so with a working delete no temporary file survives. |
| HtmlEscape.EscapeHtml | src/main/java/com/example/springbootlab/service/PdfService.java:719-728 | Null gives "". The result holds no `<`, `>`, `"` or `'`. |
| HtmlEscape.ChainIsPerCharacter | src/main/java/com/example/springbootlab/service/PdfService.java:723-727 | The five chained replacements, with `&` first, equal one per-character substitution: `&` becomes `&amp;`, `<` `&lt;`, `>` `&gt;`, `"` `&quot;`, `'` `&#39;`, and every other character is kept. |
| HtmlEscape.ChainOfOneChar | src/main/java/com/example/springbootlab/service/PdfService.java:723-727 | On a single character the chain yields exactly that character's entity, or the character itself. |
| HtmlEscape.ChainAppend | src/main/java/com/example/springbootlab/service/PdfService.java:723-727 | The chain distributes over concatenation. |
| HtmlEscape.EscapedHasNoMarkup | src/main/java/com/example/springbootlab/service/PdfService.java:723-727 | The per-character substitution never produces `<`, `>`, `"` or `'`. |
| HtmlEscape.EscapeRoundTrip | src/main/java/com/example/springbootlab/service/PdfService.java:723-727 | Decoding the five entities gives back the escaped text, so escaping loses nothing. |
| HtmlTable.FormatDate | src/main/java/com/example/springbootlab/service/PdfService.java:615-619 | An 8-character date becomes 10 characters: the year, "/", the month, "/", the day. Null and any other length are left unchanged. |
| HtmlTable.FormatDateRoundTrip | src/main/java/com/example/springbootlab/service/PdfService.java:615-619 | Removing the two inserted slashes gives back the original date. |
| HtmlTable.BadgeFollowsIsHoliday | src/main/java/com/example/springbootlab/service/PdfService.java:623-625 | The badge is `badge-yes`/放假 exactly for a day off and `badge-no`/上班 exactly otherwise. |
| HtmlTable.NoteShownIffPresent | src/main/java/com/example/springbootlab/service/PdfService.java:640-642 | The note is appended if and only if it is non-null and non-empty. |
| HtmlTable.NoteEnclosesEscapedNote | src/main/java/com/example/springbootlab/service/PdfService.java:641 | A shown note is a line break, the opening `note` span, "(", the escaped note, ")" and `/span`. The text between the parentheses decodes back to the note. |
| HtmlTable.AppendHolidayRow | src/main/java/com/example/springbootlab/service/PdfService.java:612-645 | One loop pass appends the holiday's row: the date, badge, name, category and description cells, in that order. |
| HtmlTable.AppendTableBody | src/main/java/com/example/springbootlab/service/PdfService.java:609-648 | The loop appends `<tbody>`, the row of each holiday in input order, and `</tbody></table>`. |
| HtmlTable.RowBuild | src/main/java/com/example/springbootlab/service/PdfService.java:612-645 | A row's text is the concatenation of its tags and texts in order. |
| HtmlTable.RowStructure | src/main/java/com/example/springbootlab/service/PdfService.java:612-645 | On a page whose tags are all closed, a row adds exactly the row's tags (`tr`, the five cells, `/tr`, plus the badge and note spans) and leaves every tag closed. The date must hold no `<`. |
| HtmlTable.TableBodyStructure | src/main/java/com/example/springbootlab/service/PdfService.java:609-648 | The table body adds `tbody`, each holiday's row tags in input order, `/tbody` and `/table`, and leaves every tag closed. |
| HtmlTable.RowHasFiveCells | src/main/java/com/example/springbootlab/service/PdfService.java:612-645 | A row starts with `tr`, ends with `/tr` and contains each once. It opens exactly five cells and closes five. |
| HtmlTable.TableHasOneRowPerHoliday | src/main/java/com/example/springbootlab/service/PdfService.java:609-648 | The table body holds one `tr` and one `/tr` per holiday and five cells per holiday. |
| HtmlTable.FormattedDateIsPlain | src/main/java/com/example/springbootlab/service/PdfService.java:615-620 | The formatted date contains a `<` only if the raw date does. |
| HtmlList.AppendNumberedList | src/main/java/com/example/springbootlab/service/PdfService.java:657-661 | The counted loop appends the `chinese-safe` list with items 1 to 12 in order. |
| HtmlList.ItemShowsItsNumber | src/main/java/com/example/springbootlab/service/PdfService.java:659 | Item i reads the lead text, i in decimal, then the tail. The digits between them read back as i. |
| HtmlList.ListStructure | src/main/java/com/example/springbootlab/service/PdfService.java:657-661 | The list adds `ol`, n `li`/`/li` pairs and `/ol` (2n + 2 tags) and leaves every tag closed. |
| JavaText.DecimalRoundTrip | src/main/java/com/example/springbootlab/service/PdfService.java:659 | Appending an `int` writes its decimal digits, which read back as the number. |
| JavaText.ReplaceCharRemoves | src/main/java/com/example/springbootlab/service/FetchDataService.java:255 | After replacing every `c` with text that has no `c`, no `c` is left. |
| HtmlTags.TagsAppend | src/main/java/com/example/springbootlab/service/PdfService.java:609-648 | Appending to a page whose tags are all closed appends the tags of the new text. |

## Left out

- CSV tokenisation is left out: Apache Commons CSV, `BOMInputStream`, the header handling and trimming of `buildCsvFormat` (FetchDataService.java:150-178). These are a foreign library. A data row is an already tokenised map from lower-cased column name to trimmed cell.
- A missing column makes `CSVRecord.get` throw an unchecked `IllegalArgumentException`. `fetchAndProcess` does not catch it, so the model's run ends with `Escaped`. The code is followed here, not the reading that a missing column gives an empty value.
- A row the CSV parser cannot tokenise or read while iterating (FetchDataService.java:159) surfaces from the parser's iterator as an unchecked `UncheckedIOException`. That escapes the `catch (IOException e)` at line 110 like a missing column does. The model has only a read failure that is caught and logged (`IoErrorLogged(Parse)`), not this escaping exit.
- A data URL that parses but is not absolute makes `new URI(dataUrl).toURL()` (line 132) throw an unchecked `IllegalArgumentException`. It escapes `fetchAndProcess` and, like the caught failures, leaves the temporary file behind. The model's download fails only with the two caught exceptions (`BadUri`, `TransferFails`).
- JSON serialisation by Jackson is left out: `writeValueAsString` is the uninterpreted function `json` of the environment.
- All I/O is abstracted. Network transfer, connection and read timeouts, directory creation, file writes and temporary-file deletion are outcomes fixed by the environment; the file system is a map from name to text.
- Logging is not modelled.
- The write order of yearly files follows the hash map's order. The model picks an arbitrary key on each pass and states nothing about the order.
- Pipeline.Workspace.WriteJsonWithLf: a throwing write is modelled as leaving the files unchanged. The source opens the output stream (FetchDataService.java:252) before serialising, so a failure can leave a truncated file.
- The output directory of the model is one map. The key "years" therefore shares `years.json` with the index, and the index (written last) replaces that year's file, as `OutputFiles.YearsFileIsAYearlyName` states.
- Year keys are taken as plain file names. The source resolves `<key>.json` as a path against the output directory (FetchDataService.java:222), and the keys are unchecked CSV cells. A key holding "/" or ".." would write into a subdirectory or outside the directory, or fail when that subdirectory is missing, and two such keys could name one file. The one-to-one naming that `OutputFiles.FileNameInjective` and `Pipeline.YearlyFiles` state holds for keys without path separators.
- `Pipeline.Workspace.trace`, the record of the stages started, is ghost: it exists to state the stage order.
- Strings are sequences of code points. `String.length` and `compareTo` count UTF-16 code units in the source; the two agree on the digit keys and BMP text the data holds.
- The `Holiday` class is not modelled on its own. Its fields are those of `Holidays.Holiday`, which follows the builder calls at FetchDataService.java:187-194 and the getters used in PdfService.java.
- HtmlTable.RowStructure and HtmlTable.TableBodyStructure assume dates contain no `<`: the date cell is appended without escaping (PdfService.java:620), so a date holding `<` would open a tag.
- PDF rendering is left out: `generateHolidayPdf`, fonts, the OpenHTMLtoPDF builder and `loadListStylesFromResource` are foreign libraries and classpath I/O.
- The page's constant blocks (CSS, header, the table head, the headings before the list, the fixed sample lists at PdfService.java:663-712) are constant strings with no logic.
- The unused `generateHtml` (PdfService.java:57-361) duplicates the row logic modelled here and is not modelled separately.
- `SpringBootLabApplication`, the configuration classes and the tests are outside the modelled core.

## Findings

| source | as written | input that shows it | evidently intended | confidence | as-written member | corrected member |
|---|---|---|---|---|---|---|
| src/main/java/com/example/springbootlab/service/FetchDataService.java:128-138 | `downloadToTempFile` creates the temporary file before parsing the URL and transferring. When either throws, the path never reaches `tempFile` in `fetchAndProcess` (line 97), so the `finally` cleanup sees null and the file is never deleted. | A malformed data URL, or a transfer that fails, with temporary-file creation and deletion both working | The temporary file is deleted on every way out of `fetchAndProcess` | not executed | Pipeline.TempLeaksOnBadUri | Pipeline.Workspace.FetchAndProcessCorrected |
