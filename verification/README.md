# Email crawler core, modelled in Dafny

This project models the decision logic of a Java tool that reads a company
list from a CSV file, visits each company's website, looks for an email
address, and writes the list back with the email column filled in. It proves
properties of that model. The model covers:

- the CSV line codec and the header-to-role mapping (`CsvParser`);
- the email validator, the URL gate and the blank test (`ValidationUtils`);
- the three-pass address extractor over page text (`EmailExtractorService`);
- the per-page resolution rule (`EmailCrawlerService`);
- the row record (`CsvRow`);
- the sequential run (`CsvProcessorService`);
- the per-row task rule and counters of the two multi-threaded services,
  plus their output naming, saving and time formatting;
- the encoding helpers (`FileEncodingDetector`).

Modules, one per concern:

| module | file | what it holds |
|---|---|---|
| `Wrappers` | wrappers.dfy | `Option` for Java `null`; `Result` for the error path |
| `Strings` | strings.dfy | Java `trim`, ASCII `toLowerCase`, `contains`, literal `replace`, `String.join`, splitting, decimal digits |
| `CharClasses` | char_classes.dfy | the regex character classes and their maximal runs |
| `Rows` | csv_row.dfy | the `Row` record, its defaults and a small class for the copy semantics |
| `CsvParser` | csv_parser.dfy | `parseCsvLine`, `escapeCsvField`, header roles, data-row fields, `parseCsvFile` over decoded lines |
| `Validation` | validation.dfy | `isValidEmail`, `isValidUrl`, `isEmpty` |
| `Extractor` | extractor.dfy | the three patterns compiled by hand; `find()` as leftmost, non-overlapping spans; `extractEmailsFromText` |
| `Crawler` | crawler.dfy | `crawlWebsiteForEmail` and `extractFromMailtoLinks`, with the fetched page as an input |
| `Output` | output.dfy | `saveCsvData` as the text it writes; the three `generateOutputPath` variants |
| `Processor` | processor.dfy | `crawlAndUpdateEmails` and `processCsvFile` |
| `Parallel` | parallel.dfy | `CrawlingTask.run` of both multi-threaded services; the pool as a fold over rows |
| `Timing` | timing.dfy | Java's truncating `/` and `%`, the `printStatistics` time split, `formatTime`, the remaining-time estimate |
| `Encoding` | encoding.dfy | `detectEncoding`, `containsValidKorean`, `containsBrokenChars` |

Modelling choices:

- **Absent values.** A Java `null` is `None`.
- **The network.** A fetch is an input, `Page = FetchFailed | Fetched(mailtoHrefs, text)`.
- **Pauses.** `Thread.sleep` between rows is recorded as an event. The rows after which the pause is interrupted are a parameter.
- **Threads.** The thread pool is a fold: the tasks run one after another in any order of distinct row indices. Each task reads and writes only its own row. `Parallel.OrderIndependent` proves the result does not depend on the order.

Two behaviours of the code that a reader might expect to be otherwise, modelled as the code has them:

- **Interrupted runs.** When the sequential run is interrupted, the rows it never reached keep their default found email `""`. They do not get `"X"`. See `Processor.CrawlAndUpdateEmails`.
- **Upper-case markers.** The `(at)` marker is matched case-insensitively but replaced case-sensitively. So `JOHN (AT) EXAMPLE.ORG` is extracted as `JOHN(AT)EXAMPLE.ORG`, not as an address with an `@`. See `Extractor.ParenExample`.

## Model

| member | source | states |
|---|---|---|
| Rows.NewRow | src/main/java/com/emailcrawler/model/CsvRow.java:10-20 | a new row keeps the given cells and header flag; company, website, original and found email are empty; all three column indices are -1 |
| Rows.DefensiveCopy | src/main/java/com/emailcrawler/model/CsvRow.java:18-25 | the row keeps its own copy: after the caller overwrites its array, the row still holds the original cells, and the flag is the constructor's |
| CsvParser.ParseCsvLine | src/main/java/com/emailcrawler/util/CsvParser.java:90-93 | the result is empty exactly when the line is missing or whitespace-only |
| CsvParser.FieldCount | src/main/java/com/emailcrawler/util/CsvParser.java:111-121 | a non-blank line gives one field more than it has commas outside quotes, so the last field is always emitted |
| CsvParser.ScanFieldCount | src/main/java/com/emailcrawler/util/CsvParser.java:99-121 | from any scanner state, the number of emitted fields is one plus the separating commas still ahead |
| CsvParser.ParseQuoteFreeLine | src/main/java/com/emailcrawler/util/CsvParser.java:111-121 | a non-blank line without quotes parses to its comma-separated pieces, each trimmed, and there is one piece more than there are commas |
| CsvParser.ScanQuoteFree | src/main/java/com/emailcrawler/util/CsvParser.java:99-121 | outside quotes and without quote characters, the scanner agrees with splitting at commas and trimming each piece |
| CsvParser.Scan | src/main/java/com/emailcrawler/util/CsvParser.java:99-121 | at least one field is emitted from any scanner state: the field in progress is always added when the line ends |
| CsvParser.ParsedFieldsTrimmed | src/main/java/com/emailcrawler/util/CsvParser.java:113-121 | every field `parseCsvLine` returns is already trimmed, for any line, quoted or not |
| CsvParser.QuotesToggleExample | src/main/java/com/emailcrawler/util/CsvParser.java:102-110 | in `a"b,c"d` the quotes only toggle the state and are not copied, and the quoted comma does not split: one field `ab,cd` |
| CsvParser.ScanQuoted | src/main/java/com/emailcrawler/util/CsvParser.java:102-110 | inside quotes, a doubled quote yields one literal quote, commas are kept, and the closing quote leaves quoted mode with the text collected |
| CsvParser.EscapeCsvField | src/main/java/com/emailcrawler/util/CsvParser.java:131-142 | null gives `""`; a field without comma, quote, LF or CR is returned unchanged; otherwise the result is quote-wrapped and the scanner reads it back as the one trimmed field |
| CsvParser.ScanEscaped | src/main/java/com/emailcrawler/util/CsvParser.java:102-142 | an escaped field followed by a separator or the end scans as the original field's text, whichever escaping variant is used |
| CsvParser.ScanEscapedFields | src/main/java/com/emailcrawler/util/CsvParser.java:99-142 | the escaped cells joined by commas scan back to the original cells, each trimmed |
| CsvParser.ParseEscapedLine | src/main/java/com/emailcrawler/util/CsvParser.java:90-142 | a non-blank line made of escaped cells parses back to those cells, trimmed |
| CsvParser.ParseEscapedField | src/main/java/com/emailcrawler/util/CsvParser.java:90-142 | round trip: for a field that is not all whitespace, parsing its escaped form gives the single field `trim(f)` |
| CsvParser.EscapeQuoteExample | src/main/java/com/emailcrawler/util/CsvParser.java:137-138 | `a,"b` is written as `"a,""b"`, which reads back as `a,"b` |
| CsvParser.ScanHeader | src/main/java/com/emailcrawler/util/CsvParser.java:44-53 | each role index is the last column with that role, or -1 when no column has it |
| CsvParser.MapHeader | src/main/java/com/emailcrawler/util/CsvParser.java:44-53 | each role index of a header is the last cell whose lower-cased, trimmed text names that role, with company checked before website before email; -1 if none |
| CsvParser.CompanyBeforeEmail | src/main/java/com/emailcrawler/util/CsvParser.java:46-51 | a cell `Company Email` takes the company role, because company is checked first |
| CsvParser.CompanyFirst | src/main/java/com/emailcrawler/util/CsvParser.java:45-47 | any cell whose normal form contains `company` takes the company role, whatever else it contains |
| CsvParser.StripBom | src/main/java/com/emailcrawler/util/CsvParser.java:36-38 | a leading byte-order mark is removed and any other line is kept |
| CsvParser.CellAt | src/main/java/com/emailcrawler/util/CsvParser.java:64-66 | the trimmed cell when the index is a column of the row, `""` otherwise, including -1 |
| CsvParser.DataRow | src/main/java/com/emailcrawler/util/CsvParser.java:64-74 | a data row keeps its cells and the header's role indices, and its company, website and original email are the cells at those indices |
| CsvParser.DataRows | src/main/java/com/emailcrawler/util/CsvParser.java:62-77 | every data line is read with the same header roles, one row per line in order |
| CsvParser.ParseCsvFile | src/main/java/com/emailcrawler/util/CsvParser.java:24-82 | one row per line; the first is the header with its cells and the header flag; every later line is a data row under the header's roles; a BOM is stripped from any line |
| CsvParser.DataRowEmailColumn | src/main/java/com/emailcrawler/util/CsvParser.java:44-66 | a data row's email index is the header's last email column, its original email is that trimmed cell, and without an email column it is `""` |
| Validation.MatchesEmailPattern | src/main/java/com/emailcrawler/util/ValidationUtils.java:10-11 | the full-string match holds exactly when the text splits as local `@` domain `.` tld over the pattern's classes, with a tld of at least two letters |
| Validation.IsValidEmail | src/main/java/com/emailcrawler/util/ValidationUtils.java:23-39 | accepted iff present, not whitespace-only, at most 254 characters before trimming, and the lower-cased trimmed form has no denied file extension and fits the address grammar |
| Validation.ValidEmailHasOneAt | src/main/java/com/emailcrawler/util/ValidationUtils.java:10-11 | every accepted string has, once normalised, exactly one `@` |
| Validation.ValidEmailMinLength | src/main/java/com/emailcrawler/util/ValidationUtils.java:10-11 | an accepted address has at least six characters, both before and after normalising |
| Validation.ValidityIgnoresCaseAndPadding | src/main/java/com/emailcrawler/util/ValidationUtils.java:24-28 | within the length bound, a string is accepted exactly when its lower-cased trimmed form is |
| Validation.PaddedMixedCaseExample | src/main/java/com/emailcrawler/util/ValidationUtils.java:28 | ` Jane@Example.COM ` is accepted |
| Validation.DeniedExtensionExample | src/main/java/com/emailcrawler/util/ValidationUtils.java:31-35 | `a@b.pdf` fits the address grammar and is still rejected |
| Validation.OverlongRejected | src/main/java/com/emailcrawler/util/ValidationUtils.java:24-26 | a string longer than 254 characters is rejected, whatever it holds |
| Validation.PlainAddressValid | src/main/java/com/emailcrawler/util/ValidationUtils.java:28-38 | a lower-case address that fits the grammar and ends in `m` is accepted and is its own normal form |
| Validation.IsValidUrl | src/main/java/com/emailcrawler/util/ValidationUtils.java:47-54 | true iff the string is present and its trimmed form starts with `http://` or `https://`; a true result is never blank |
| Validation.UpperCaseSchemeRejected | src/main/java/com/emailcrawler/util/ValidationUtils.java:53 | the scheme test is case-sensitive: `HTTP://x` is rejected |
| Validation.IsEmpty | src/main/java/com/emailcrawler/util/ValidationUtils.java:62-64 | true iff the string is missing or every character of it is at most U+0020 |
| Extractor.DomainTail | src/main/java/com/emailcrawler/service/EmailExtractorService.java:14-19 | the backtracking choice after the domain run: the rightmost dot that a two-letter tld and a word boundary can follow, then the longest such tld; none exactly when no dot works |
| Extractor.MatchAt | src/main/java/com/emailcrawler/service/EmailExtractorService.java:14-19 | a successful attempt ends after its start and within the text, and starts at a word boundary on a local-part character |
| Extractor.MatchAtSound | src/main/java/com/emailcrawler/service/EmailExtractorService.java:14-19 | a match attempt that succeeds has the shape its pattern describes, boundaries included |
| Extractor.MatchAtComplete | src/main/java/com/emailcrawler/service/EmailExtractorService.java:14-19 | every position where the pattern's shape fits is one where the attempt succeeds |
| Extractor.FirstMatch | src/main/java/com/emailcrawler/service/EmailExtractorService.java:61-65 | `find()`: the returned span is a match, and no match starts between the search position and the span's start; none means no match at all from there |
| Extractor.SpansAreLeftmost | src/main/java/com/emailcrawler/service/EmailExtractorService.java:61-65 | the repeated search yields matches in left-to-right order, without overlap, each the leftmost one after the previous match ends |
| Extractor.PassEntries | src/main/java/com/emailcrawler/service/EmailExtractorService.java:38-53 | one entry per span in order: the matched text for the standard pass, and for the marked passes the text with the lower-case marker replaced by `@` and whitespace removed |
| Extractor.ExtractEmailsFromText | src/main/java/com/emailcrawler/service/EmailExtractorService.java:27-56 | `[]` for missing or blank text; otherwise all standard entries, then all `[at]` entries, then all `(at)` entries, with duplicates kept |
| Extractor.OnlyPassFinds | src/main/java/com/emailcrawler/service/EmailExtractorService.java:32-55 | when the other two passes find nothing in a non-blank text, the result is exactly the remaining pass's entries |
| Extractor.StandardEntriesHaveOneAt | src/main/java/com/emailcrawler/service/EmailExtractorService.java:14-15 | every standard-pass entry has exactly one `@` |
| Extractor.MarkedEntriesHaveNoSpace | src/main/java/com/emailcrawler/service/EmailExtractorService.java:40-51 | no entry of an obfuscated pass contains a whitespace character |
| Extractor.MatchNeedsChar | src/main/java/com/emailcrawler/service/EmailExtractorService.java:14-19 | a standard match needs an `@` in the text and a marked match needs the marker's opening bracket |
| Extractor.NoRequiredCharNoMatch | src/main/java/com/emailcrawler/service/EmailExtractorService.java:35-53 | text without that character yields no spans and no entries for the pass |
| Extractor.SingleMarkedText | src/main/java/com/emailcrawler/service/EmailExtractorService.java:27-56 | a text that is one whole marked match and holds no other pass's key character extracts to exactly its cleaned form |
| Extractor.BracketExample | src/main/java/com/emailcrawler/service/EmailExtractorService.java:38-44 | `jane [at] example.com` extracts to `jane@example.com` |
| Extractor.ParenExample | src/main/java/com/emailcrawler/service/EmailExtractorService.java:47-53 | `JOHN (AT) EXAMPLE.ORG` is found case-insensitively, but the case-sensitive replacement leaves `JOHN(AT)EXAMPLE.ORG` |
| Crawler.MailtoAddress | src/main/java/com/emailcrawler/service/EmailCrawlerService.java:85-87 | the address is the maximal run of characters other than `?`, `&` and whitespace after the first case-insensitive `mailto:` that is followed by at least one such character; none when no `mailto:` is |
| Crawler.MailtoExample | src/main/java/com/emailcrawler/service/EmailCrawlerService.java:85-89 | `mailto:Info@Acme.com?subject=x` offers `info@acme.com`, which validates and is what the links give |
| Crawler.FromMailtoLinks | src/main/java/com/emailcrawler/service/EmailCrawlerService.java:80-95 | `""` iff no link offers a valid address; otherwise the normalised address of the first link that does |
| Crawler.FirstValid | src/main/java/com/emailcrawler/service/EmailCrawlerService.java:60-68 | `""` iff no candidate validates after lower-casing and trimming; otherwise the normal form of the first one that does |
| Crawler.CrawlWebsiteForEmail | src/main/java/com/emailcrawler/service/EmailCrawlerService.java:34-75 | an invalid URL gives `""` without a fetch, and a failed fetch gives `""`; for a fetched page, when some link offers a valid address the result is the address of the first such link, and otherwise it is the normal form of the first text candidate that validates, `""` exactly when none does |
| Crawler.CrawlResultIsNormalValid | src/main/java/com/emailcrawler/service/EmailCrawlerService.java:60-64 | the result is `""` or a lower-case, trimmed string that passes the validator |
| Crawler.MailtoWins | src/main/java/com/emailcrawler/service/EmailCrawlerService.java:49-53 | once some link offers a valid address, the result is the mailto result and the page text does not matter |
| Crawler.TextDecidesWithoutMailto | src/main/java/com/emailcrawler/service/EmailCrawlerService.java:56-69 | with no valid mailto link, the result is the first validating text candidate, or `""` |
| Output.UpdatedValues | src/main/java/com/emailcrawler/service/CsvProcessorService.java:140-143 | the email cell takes the found email only when the email index is a column of the row; every other cell is unchanged |
| Output.Lines | src/main/java/com/emailcrawler/service/CsvProcessorService.java:134-151 | one line per row, in list order, each the row's own written line |
| Output.RowLine | src/main/java/com/emailcrawler/service/CsvProcessorService.java:134-149 | a row whose cells and found email hold no line feed is written as one line, with no line feed inside it |
| Output.SaveCsvData | src/main/java/com/emailcrawler/service/CsvProcessorService.java:129-156 | the text starts with a byte-order mark |
| Output.SavedLines | src/main/java/com/emailcrawler/service/CsvProcessorService.java:132-150 | after the BOM, the text splits at line feeds into the rows' lines in order, each terminated |
| Output.DataLineReadsBack | src/main/java/com/emailcrawler/service/CsvProcessorService.java:140-149 | a data row's written line parses back to its merged cells, trimmed |
| Output.HeaderLineReadsBack | src/main/java/com/emailcrawler/service/CsvProcessorService.java:135-137 | header cells without commas or quotes are joined unescaped and parse back, trimmed |
| Output.EscapeVariants | src/main/java/com/emailcrawler/service/MultiThreadCsvProcessorService.java:231-238 | the services' own escaping agrees with the parser's except on a field whose only special character is a CR, which it leaves unquoted |
| Output.WriteRow | src/main/java/com/emailcrawler/service/MultiThreadCsvProcessorService_Temp.java:308-344 | writing through the row object, on a copy of its cells, produces exactly the row's line |
| Output.OutputPath | src/main/java/com/emailcrawler/service/CsvProcessorService.java:118-124 | the result always ends in `_updated.csv`; a `.csv` ending in any letter case is replaced, and any other path is extended |
| Output.OutputPathInverse | src/main/java/com/emailcrawler/service/MultiThreadCsvProcessorService_Temp.java:290-296 | dropping `_updated.csv` from the output gives the stem; putting back the original's `.csv` ending, in its original letter case, gives the original path |
| Output.OutputPathMerges | src/main/java/com/emailcrawler/service/MultiThreadCsvProcessorService_Temp.java:290-296 | the naming is not one-to-one: a path without a `.csv` ending and the same path with `.csv` appended get the same output name |
| Output.ReplacingAgreesOnPlainName | src/main/java/com/emailcrawler/service/MultiThreadCsvProcessorService.java:197-199 | for a name with no other dot and a lower-case `.csv` ending, the replacing variant gives the same path as the others |
| Output.ReplacingLeavesUpperCase | src/main/java/com/emailcrawler/service/MultiThreadCsvProcessorService.java:197-199 | a path without a lower-case `.csv` is returned unchanged, so it does not end in `_updated.csv` |
| Output.UpperCaseNameExample | src/main/java/com/emailcrawler/service/MultiThreadCsvProcessorService.java:197-199 | `DATA.CSV` maps to itself under the replacing variant, while the other services give `DATA_updated.csv` |
| Processor.FoundValueShape | src/main/java/com/emailcrawler/service/CsvProcessorService.java:82-89 | a settled cell is `X` or a validated normal-form address, and it is `X` exactly when the website is empty or the crawl found nothing |
| Processor.LastSettled | src/main/java/com/emailcrawler/service/CsvProcessorService.java:99-108 | the run stops at the first crawled, non-last row whose pause is interrupted; without interrupts it reaches the last row |
| Processor.CrawlAndUpdateEmails | src/main/java/com/emailcrawler/service/CsvProcessorService.java:69-113 | the header is untouched; rows 1 to the stopping row are settled in order; later rows are unchanged; pauses are recorded, in increasing order, after exactly the crawled rows that are not last |
| Processor.ProcessCsvFile | src/main/java/com/emailcrawler/service/CsvProcessorService.java:33-64 | a missing file and an empty file are errors before any crawling; otherwise the rows parsed from the lines come back with the header as read, rows 1 to the stopping row settled from the crawl of their own website, and the later rows as read, and the text is exactly the save of those rows to the derived output path |
| Parallel.RunTask | src/main/java/com/emailcrawler/service/MultiThreadCsvProcessorService.java:109-144 | a success is counted iff the website is non-empty and the crawl found something; an empty website is marked `X` |
| Parallel.TaskAgreesWithSequential | src/main/java/com/emailcrawler/service/MultiThreadCsvProcessorService_Temp.java:120-126 | a task that is not interrupted writes the same value as the sequential run |
| Parallel.TaskOutcomes | src/main/java/com/emailcrawler/service/MultiThreadCsvProcessorService.java:114-143 | a task writes `X` or the crawl result, and the result exactly when it counted a success and was not interrupted |
| Parallel.InterruptAfterSuccess | src/main/java/com/emailcrawler/service/MultiThreadCsvProcessorService_Temp.java:128-144 | an interrupt after a successful crawl marks the row `X` although the success stays counted |
| Parallel.RunAllRows | src/main/java/com/emailcrawler/service/MultiThreadCsvProcessorService.java:101-106 | after distinct tasks run, each row with a task is done from its own original contents and every other row is unchanged |
| Parallel.RunAll | src/main/java/com/emailcrawler/service/MultiThreadCsvProcessorService.java:75-77 | every task completes once, so completed rises by the number of tasks, and a row that no task names is left as it was |
| Parallel.RunAllCounts | src/main/java/com/emailcrawler/service/MultiThreadCsvProcessorService_Temp.java:134-145 | completed equals the number of tasks run, and success equals the number of rows whose task found an address |
| Parallel.OrderIndependent | src/main/java/com/emailcrawler/service/MultiThreadCsvProcessorService.java:75-77 | any two orders of the same distinct tasks leave the same rows and the same counters |
| Parallel.SuccessAtMostCompleted | src/main/java/com/emailcrawler/service/MultiThreadCsvProcessorService.java:112-130 | success never exceeds completed, and completed rises by exactly one per task |
| Parallel.AllRowsDone | src/main/java/com/emailcrawler/service/MultiThreadCsvProcessorService.java:75-77 | with one task per data row, every data row is done, and completed equals the number of data rows |
| Timing.JavaDiv | src/main/java/com/emailcrawler/service/MultiThreadCsvProcessorService.java:180-182 | Java's `/` truncates toward zero: the quotient's bounds for non-negative and for negative dividends |
| Timing.JavaRem | src/main/java/com/emailcrawler/service/MultiThreadCsvProcessorService.java:181-182 | Java's `%`: quotient times divisor plus remainder is the dividend, and the remainder takes the dividend's sign |
| Timing.SplitElapsed | src/main/java/com/emailcrawler/service/MultiThreadCsvProcessorService.java:180-182 | for a non-negative duration the hours are non-negative and minutes and seconds lie in 0..59; for a negative one every part is non-positive, minutes and seconds above -60 |
| Timing.SplitElapsedExact | src/main/java/com/emailcrawler/service/MultiThreadCsvProcessorService.java:180-182 | for ms ≥ 0, minutes and seconds are below 60 and hours·3600 + minutes·60 + seconds = ms/1000 |
| Timing.SplitElapsedNegative | src/main/java/com/emailcrawler/service/MultiThreadCsvProcessorService.java:180-182 | a negative duration splits into the negated parts of its absolute value |
| Timing.FormatTime | src/main/java/com/emailcrawler/service/MultiThreadCsvProcessorService_Temp.java:251-252 | a negative value is shown as `--:--` |
| Timing.FormatTimeReadsBack | src/main/java/com/emailcrawler/service/MultiThreadCsvProcessorService_Temp.java:254-262 | the text has three parts from an hour on and two below; the parts after the first have two digits and are below 60; their values add back to the seconds |
| Timing.FormatMinuteExample | src/main/java/com/emailcrawler/service/MultiThreadCsvProcessorService_Temp.java:261 | 65 seconds is shown as `1:05` |
| Timing.FormatHourExample | src/main/java/com/emailcrawler/service/MultiThreadCsvProcessorService_Temp.java:259 | 3661 seconds is shown as `1:01:01` |
| Timing.RemainingSeconds | src/main/java/com/emailcrawler/service/MultiThreadCsvProcessorService_Temp.java:172-174 | the remaining-time estimate is never negative |
| Timing.RemainingAtEnds | src/main/java/com/emailcrawler/service/MultiThreadCsvProcessorService_Temp.java:172-174 | the estimate is 0 before any task completes and 0 once all have |
| Timing.RemainingEstimate | src/main/java/com/emailcrawler/service/MultiThreadCsvProcessorService_Temp.java:172-174 | while work remains, the estimate is the elapsed time scaled by the tasks left per task done |
| Encoding.DetectEncoding | src/main/java/com/emailcrawler/util/FileEncodingDetector.java:20-53 | every path is read as EUC-KR, one of the candidate encodings |
| Encoding.ContainsValidKorean | src/main/java/com/emailcrawler/util/FileEncodingDetector.java:58-69 | true iff the text is present and some character is in U+AC00..U+D7AF; false for missing or empty text |
| Encoding.ContainsBrokenChars | src/main/java/com/emailcrawler/util/FileEncodingDetector.java:74-76 | true iff the text is present and holds U+FFFD or two question marks in a row |
| Encoding.BrokenInContext | src/main/java/com/emailcrawler/util/FileEncodingDetector.java:75 | a broken line stays broken inside any surrounding text |
| Encoding.SeparatedQuestionMarks | src/main/java/com/emailcrawler/util/FileEncodingDetector.java:75 | separated question marks (`a?b?c`) are not a sign of breakage |

## Left out

- The thread pool is left out: submission, `awaitTermination` deadlines, `shutdownNow`, the daemon monitor threads and atomic counters. They are concurrency. Tasks run one at a time in an arbitrary order of distinct rows.
- The whole `processCsvFile` of the two multi-threaded services is not one member. Its parts are modelled: parsing, the task fold, saving and naming. Its rows-empty check is the same as `Processor.ProcessCsvFile`.
- `Thread.sleep` and the clocks are left out. A pause is a recorded row index, and its interruption is an input. Elapsed milliseconds and seconds are parameters.
- The Jsoup fetch, the user agent, the timeout and the `a[href^=mailto:]` selection are left out. The page is an input holding the selected hrefs and the page text.
- File reading and writing, charset decoding, the existence check and `getAbsolutePath` are left out. `ParseCsvFile` takes the decoded lines. `ProcessCsvFile` takes a flag for the existence check. Saving yields the text that would be written.
- Progress percentages, success rates, throughput, average time and the progress bar are left out. They use floating point.
- Console output, `clearScreen` and `Main` are left out. They are I/O only.
- The disabled selection loop inside `detectEncoding` is left out. It is commented out in the source. Its two tests are modelled.
- Java `long` overflow is not modelled. Integers are unbounded. Durations and counts stay far below 2^63.
- Strings.Normalize: only ASCII letters are lower-cased, and trimming strips characters up to U+0020. Java's full Unicode `toLowerCase` is not modelled.
- Extractor.IsWordChar: `\b` treats ASCII letters, digits and `_` as word characters, and nothing else. This misses two things Java does. Older JDKs also count other Unicode letters and digits. Every JDK also counts a non-spacing combining mark (category Mn) as a word character when the nearest non-mark character before it is a letter or digit. A Unicode category table is not part of this model. So on text where an address borders such a character, `Extractor.IsBoundary`, `Extractor.DomainTail`, `Extractor.MatchAt` and `Extractor.ExtractEmailsFromText` can report a match Java does not. For example, `a@b.com` followed by U+0301 gives `["a@b.com"]` here, but Java finds no boundary after `com` and gives `[]`.
- Processor.CrawlAndUpdateEmails: the crawler's result for row `i` is a parameter, `crawl(i)`. `Processor.ProcessCsvFile` builds it from the pages with `Crawler.CrawlWebsiteForEmail`.
- The `CsvRow` setters and `GetValues` are stated with `old` and `fresh`. Each setter changes only its own field, and `GetValues` returns a fresh copy. The copy semantics are restated without the heap in `Rows.DefensiveCopy`.

## Findings

| source | as written | input that shows it | evidently intended | confidence | as-written member | corrected member |
|---|---|---|---|---|---|---|
| src/main/java/com/emailcrawler/service/MultiThreadCsvProcessorService.java:197-199 | `originalPath.replace(".csv", "_updated.csv")` replaces only a lower-case `.csv`, anywhere in the path | `DATA.CSV` maps to `DATA.CSV`, so the output is written over the input file | the output name ends in `_updated.csv` with a `.csv` ending of any case replaced, as the other two services do | medium, not executed | Output.UpperCaseNameExample | Output.OutputPath |
