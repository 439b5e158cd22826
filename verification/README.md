# AVD latency scraper: the data path, in Dafny

This project models the pure core of the `run-test` service, which scrapes a
table of per-region Azure Virtual Desktop latencies from a web page and appends
them, with a timestamp, to a CSV log. It covers three parts:

- the validated value types `RegionName` and `Latency` (`CommonTypes.cs`),
  including `int.TryParse` and the unchecked `int`/`uint` casts they rely on;
- the `Choose` filter-map (`Extensions.cs`);
- inside `TestingService.cs`: interpreting a table row,
  building the region→latency dictionary, the catch that turns a fault raised
  inside the scrape's `try` (navigation, the table lookup, reading the rows,
  building the dictionary) into an empty dictionary, and the CSV append with
  its header rule.
  It also covers `GetDelayPerRun` and the default Edge driver download URI.

The browser is not modelled. A scraped page is a `Result<seq<seq<string>>, Fault>`:
the rows of `td` cell texts, or the fault the browser raised. The CSV file is an
`Option<seq<seq<string>>>`, where `None` means the file does not exist.
Everything is a pure function over immutable datatypes.

Modules, one per component: `Wrappers` (Option/Result), `Text` (`char.IsWhiteSpace`,
`string.IsNullOrWhiteSpace`), `Numeric` (Int32/UInt32, unchecked casts,
`int.TryParse`, decimal rendering), `RegionNames`, `Latencies`, `Extensions`,
`Scraper`, `CsvStore`, `Service` (`Run`) and `Configuration`.

The model follows the code in these edge cases:

- `RegionName` keeps its text untrimmed. `" West US "` and `"West US"` are different regions.
- A row with fewer than two `td` cells is not skipped. Indexing cell 0 or 1 throws, and
  the catch in `GetRegionLatencies` turns the whole scrape into an empty map
  (`Scraper.ShortRowEmptiesScrapeExample`).
- A region that repeats with a different latency does not overwrite the earlier
  value. `ToImmutableDictionary` throws, so the scrape is again empty
  (`Scraper.RepeatedRegionExamples`). A repeat with the same latency is accepted.

## Model

| member | source | states |
|---|---|---|
| RegionNames.Create | code/run-test/CommonTypes.cs:7 | the constructor fails exactly on null or whitespace-only text; otherwise the stored text is the input, untrimmed |
| RegionNames.ToString | code/run-test/CommonTypes.cs:9-13 | the text identifies the name (equal text, equal name), and it is never blank exactly when the name satisfies the constructor's invariant |
| RegionNames.TryFrom | code/run-test/CommonTypes.cs:11 | None iff the input is null, empty or whitespace-only; otherwise a valid name whose text is the input character for character |
| RegionNames.TryFromToString | code/run-test/CommonTypes.cs:7-13 | for every valid name r, `TryFrom(r.ToString()) == Some(r)` |
| RegionNames.UntrimmedExample | code/run-test/CommonTypes.cs:7-11 | surrounding spaces are kept, so `" West US "` is accepted and differs from `"West US"` |
| RegionNames.BlankExamples | code/run-test/CommonTypes.cs:11 | empty, space-only and control-whitespace text, and null, all give None |
| Latencies.Create | code/run-test/CommonTypes.cs:20 | the constructor fails exactly on negative values; otherwise the stored uint equals the input and respects the Int32.MaxValue bound |
| Latencies.CreateToInt | code/run-test/CommonTypes.cs:20-22 | for n >= 0, constructing and calling `ToInt()` gives n back |
| Latencies.ConversionsAgree | code/run-test/CommonTypes.cs:18-35 | on every constructed latency the implicit uint conversion and `ToInt()` give the same number, within 0..Int32.MaxValue |
| Latencies.ConversionsDisagreeWithoutInvariant | code/run-test/CommonTypes.cs:18-22 | the agreement rests on the constructor's invariant: a stored 2^31, which no constructor produces, would read back as Int32.MinValue |
| Latencies.ToInt | code/run-test/CommonTypes.cs:22 | the unchecked `(int)` cast keeps the stored value modulo 2^32; on a constructed latency it is non-negative and constructs the same latency again |
| Latencies.ToUInt | code/run-test/CommonTypes.cs:35 | on a constructed latency the `uint` is at most Int32.MaxValue and constructs the same latency again |
| Latencies.ToString | code/run-test/CommonTypes.cs:24 | the rendering is unsigned decimal digits that denote the stored value, with a leading zero only in `"0"` itself |
| Latencies.TryFromInt | code/run-test/CommonTypes.cs:26 | None iff the value is negative; otherwise a valid latency whose `ToInt()` is the value |
| Latencies.TryFromText | code/run-test/CommonTypes.cs:28-33 | Some iff the text is not null or blank, `int.TryParse` accepts it, and the parsed value is non-negative; the result's `ToInt()` is the parsed value |
| Latencies.TextRoundTrip | code/run-test/CommonTypes.cs:24-33 | for every valid latency l, `TryFrom(l.ToString()) == Some(l)` |
| Latencies.ParseRenderParse | code/run-test/CommonTypes.cs:24-33 | parse, render and parse again gives the first parse's value |
| Latencies.AcceptedTextExamples | code/run-test/CommonTypes.cs:28-33 | "42" and " 7 " parse to 42 and 7; "-0" parses to 0, which is not negative |
| Latencies.RejectedTextExamples | code/run-test/CommonTypes.cs:28-33 | "-1", "-5", "abc", "" and null give None |
| Numeric.UncheckedToUInt32 | code/run-test/CommonTypes.cs:20 | the `(uint)` cast keeps the value's residue modulo 2^32 |
| Numeric.UncheckedToInt32 | code/run-test/CommonTypes.cs:22 | the `(int)` cast keeps the residue modulo 2^32 and is the identity up to Int32.MaxValue |
| Numeric.Int32ToDecimal | code/run-test/TestingService.cs:258 | `int.ToString()`: a minus sign exactly for negative values, followed by the digits of the magnitude, with a leading zero only in `"0"` itself |
| Numeric.TryParseInt32 | code/run-test/CommonTypes.cs:31 | text that is empty or only number white space is rejected; ParseCharacterized states exactly which text is accepted |
| Numeric.NatToDecimal | code/run-test/CommonTypes.cs:24 | the rendering of a number is non-empty ASCII digits, with a leading zero only in `"0"` itself, and its digits denote the number |
| Numeric.ParsePaddedRendering | code/run-test/CommonTypes.cs:31 | `int.TryParse` reads every rendered Int32 back, with any surrounding white space the number style allows |
| Numeric.ParseRendering | code/run-test/CommonTypes.cs:31 | `int.TryParse(x.ToString())` gives x for every Int32 x, negative ones included |
| Numeric.ParseOverflow | code/run-test/CommonTypes.cs:31 | a decimal number above Int32.MaxValue is rejected, not wrapped |
| Numeric.ParseCharacterized | code/run-test/CommonTypes.cs:31 | `int.TryParse` accepts exactly text of the form: optional white space, an optional `+` or `-`, one or more ASCII digits, optional white space, whose value fits in Int32, and yields that value; text of that form out of range is rejected, and text of any other form is never accepted |
| Numeric.ParseShapeExamples | code/run-test/CommonTypes.cs:31 | "007" gives 7 and "+5" gives 5, while "12a" is rejected |
| Extensions.Choose | code/run-test/Extensions.cs:8-9 | the result is never longer than the input |
| Extensions.ChooseMembership | code/run-test/Extensions.cs:8-9 | the chosen values are exactly the non-null results of the chooser on the input's elements |
| Extensions.ChooseAppend | code/run-test/Extensions.cs:8-9 | `Choose(xs + ys) == Choose(xs) + Choose(ys)` |
| Extensions.ChooseTotal | code/run-test/Extensions.cs:8-9 | a chooser that never returns null makes Choose a plain map, element by element |
| Extensions.ChooseNothing | code/run-test/Extensions.cs:8-9 | a chooser that always returns null gives the empty sequence |
| Extensions.ChooseStruct | code/run-test/Extensions.cs:14-15 | the value-type overload never yields more elements than its input; ChooseOverloadsAgree shows it equals Choose |
| Extensions.ChooseOverloadsAgree | code/run-test/Extensions.cs:14-15 | the value-type overload, written as the Select/Where/Select pipeline, yields the same sequence as the reference-type overload |
| Scraper.RegionLatencyFromRowColumns | code/run-test/TestingService.cs:227-235 | a row with fewer than two cells faults with an index error; otherwise it gives a pair iff cell 0 is a valid region and cell 1 a valid latency, and that pair renders back to cell 0 and parses from cell 1 |
| Scraper.ExtraCellsIgnored | code/run-test/TestingService.cs:229-232 | cells after the second never change a row's interpretation |
| Scraper.AddRow | code/run-test/TestingService.cs:215-217 | one step of the dictionary build: an earlier fault stays, a row with fewer than two cells is the index fault, and a successful step keeps every earlier key; CollectRegionLatenciesCharacterized gives the whole fold |
| Scraper.CollectRegionLatencies | code/run-test/TestingService.cs:214-217 | a successful map holds only valid names and latencies, and has no more entries than rows |
| Scraper.CollectRegionLatenciesCharacterized | code/run-test/TestingService.cs:214-217 | the dictionary is built iff every row has two cells and no region repeats with another latency; then its keys are exactly the regions of the valid rows, each mapped to its row's latency |
| Scraper.ScrapeRegionLatencies | code/run-test/TestingService.cs:186-212 | with the catch folded in, a browser fault raised inside the `try`, a short row or a conflicting repeat gives the empty map; otherwise the map holds exactly the valid rows' pairs |
| Scraper.MalformedRowsDroppedExample | code/run-test/TestingService.cs:214-235 | on the four-row example table the blank region and the negative latency are dropped, leaving {West US: 42, North Europe: 7} |
| Scraper.ShortRowEmptiesScrapeExample | code/run-test/TestingService.cs:201-232 | a single-cell row after a valid row empties the whole scrape |
| Scraper.RepeatedRegionExamples | code/run-test/TestingService.cs:214-217 | a region listed with 42, then 0, then 43 empties the scrape |
| Scraper.RepeatedSameLatencyKeptOnce | code/run-test/TestingService.cs:214-217 | West US listed twice with 42 is kept once, as {West US: 42} |
| CsvStore.CsvFileAlreadyHasEntries | code/run-test/TestingService.cs:266-281 | a missing file has no entries; an existing file has them, since its first record, read as the header, has at least one field, whether it is the header itself or a data row |
| CsvStore.WriteCsvHeaderRecord | code/run-test/TestingService.cs:283-293 | the file becomes the header alone, which the entry check then recognises |
| CsvStore.DataRecord | code/run-test/TestingService.cs:254-261 | a data row has three fields, the first being the batch timestamp; DataRecordReadsBack shows the other two read back as the region and latency |
| CsvStore.DataRecordReadsBack | code/run-test/TestingService.cs:254-261 | a data row is never the header, and its region and latency fields parse back to the values written |
| CsvStore.DataRecordsAreBatch | code/run-test/TestingService.cs:254-261 | the rows written for a map are one three-field row per entry, one-to-one, all with the batch timestamp |
| CsvStore.WriteRecordToFile | code/run-test/TestingService.cs:237-264 | an empty map leaves the file as it was, even absent; otherwise the file ends with one row per entry; without prior entries it is the header plus those rows; with entries the old contents are a prefix |
| CsvStore.WriteNonEmpty | code/run-test/TestingService.cs:245-261 | a non-empty batch goes after the existing records, or after a freshly written header when the entry check fails |
| CsvStore.AppendKeepsSingleHeader | code/run-test/TestingService.cs:245-249 | starting from no file or from a log with one leading header, every append leaves exactly one header, first |
| CsvStore.FirstAppendExample | code/run-test/TestingService.cs:237-293 | appending {West US: 42} at T to a missing file gives the header and then [T, "West US", "42"] |
| Service.Run | code/run-test/TestingService.cs:172-184 | a browser fault, a short row or a conflicting repeat leaves the file untouched; the file changes only when the scrape produced at least one valid pair |
| Configuration.GetDelayPerRun | code/run-test/TestingService.cs:68-78 | 300 seconds when the key is absent or its value is not an Int32; otherwise the parsed seconds |
| Configuration.ConfiguredDelayRoundTrip | code/run-test/TestingService.cs:73-76 | any Int32 written into the setting, negative ones included, is the delay used |
| Configuration.UnparsableDelayExample | code/run-test/TestingService.cs:74-76 | "five" falls back to 300 seconds |
| Configuration.OverflowingDelayFallsBack | code/run-test/TestingService.cs:74-76 | a number beyond Int32.MaxValue falls back to 300 seconds |
| Configuration.DefaultEdgeDriverDownloadUri | code/run-test/TestingService.cs:144 | the address is the driver host, then the version as a path segment, then `/edgedriver_win64.zip` or `/edgedriver_win32.zip` by bitness |
| Configuration.DefaultUriDeterminesVersionAndBitness | code/run-test/TestingService.cs:144 | different versions or bitnesses never give the same address |
| Configuration.GetEdgeDriverDownloadUri | code/run-test/TestingService.cs:127-146 | a configured address is used iff it is an absolute URI, and is an error otherwise; without one, a failed version lookup is the error, and after a successful lookup the call succeeds iff the default address is a valid URI, which is then the result |

## Left out

- Selenium and Edge: the session, the headless option, the 10-second implicit wait, navigation, finding the `azure-regions` table and its rows and cells, and `driver.Quit()`. These are foreign browser calls. A page is given as its rows of cell texts, or as a `BrowserFault`.
- Faults outside the scrape's `try`: creating the `EdgeDriver` session (TestingService.cs:190) and `driver.Quit()` in the `finally` (line 210) are not caught there. Their exceptions leave `Run` and are re-thrown by `ExecuteAsync`, which stops the service. The model's `page` parameter carries only faults raised inside the `try`.
- Driver provisioning: the `AsyncLazy` service, the HTTP download, zip extraction, temporary-file and directory deletion, and the registry lookup of the Edge version. These are I/O and platform calls. The version lookup is a `Result` parameter of `GetEdgeDriverDownloadUri`, and `Uri.TryCreate`/`new Uri` is a predicate parameter.
- `ExecuteAsync`, `Task.Delay`, cancellation, telemetry start/stop/flush and `DisposeAsync`. These are async hosting and concurrency. `Worker.cs` and `Program.cs` (host wiring, logging, `LocalhostDependencyFilter`) are not part of this model.
- Logging everywhere, because it has no effect on the data.
- `GetCsvFile` and `GetEdgeDriverFolder`, because they only combine paths.
- CsvHelper encoding details: quoting, escaping, line endings and the `DateTimeOffset` text. The timestamp is the rendered field text. Region and latency fields are `RegionName.ToString()` and `int.ToString()` with the invariant culture.
- CsvStore.CsvFileAlreadyHasEntries: reading the header of an existing file with no record at all is CsvHelper behaviour that the source does not show. Blank lines, which CsvHelper skips by default, are not represented, so an existing file's first record is taken to have at least one field. Both are required by a precondition (`Readable`), which `WriteRecordToFile` and `Run` inherit for non-empty batches. Under it, an existing file always has entries.
- CsvStore.WriteRecordToFile: the dictionary's hash enumeration order is not modelled. It is a parameter that must list every key once, and the written rows are stated as a one-to-one correspondence with the map entries, not as a fixed order.
- Numeric.TryParseInt32: culture-specific sign symbols are not modelled. The model accepts ASCII `+`/`-`, surrounding U+0009..U+000D and U+0020 white space, ASCII digits and the Int32 range. Trailing NUL characters, which .NET also tolerates, are not accepted by the model.
- Configuration.GetDelayPerRun: the configuration is looked up by the key's exact spelling. `IConfiguration.GetSection` ignores case, so a key such as `delay_per_run_in_seconds` is used by the service but is absent in the model. The result is the number of seconds rather than a `TimeSpan`. A configuration section that exists only through child keys (so its value is null) is not modelled.
- Configuration.GetEdgeDriverDownloadUri: the key `EDGE_DRIVER_DOWNLOAD_URI` is matched by its exact spelling, whereas `IConfiguration.GetSection` ignores case. A section that exists only through child keys (so its value is null) is not modelled: the service then throws, because `Uri.TryCreate(null, …)` fails, while the model takes the version-lookup branch. The URI is kept as the text that was checked. `Uri` normalisation is not modelled.
- Service.Run: its contract says when the file changes, but not which rows are written. The rows are stated by `CsvStore.WriteRecordToFile` on the scraped map.
