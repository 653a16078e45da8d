# Log analyzer core in Dafny

This project models the parse-and-aggregate pipeline of a server-log
analyzer. Each line of the log has the form
`YYYY-MM-DD hh:mm:ss,IP,METHOD,STATUS`. The pipeline has five parts:

- **Line validation (`LogParser`).** A line is accepted only if it passes two
  gates. The structural gate is an anchored pattern. The semantic gate
  requires every IP octet to be in 0..255. `is_error` is set from the
  status. Running accepted and rejected counters give a success rate.
- **Line reading (`LogReader`).** Lines are stripped and blank lines are
  dropped. Two counters persist across calls: lines read and lines skipped.
- **Aggregation (`DataProcessor`).** `analyze` computes:
  - totals and the error/success split;
  - an error percentage, guarded against an empty table;
  - frequency tables of status codes and request methods;
  - distinct-address counts;
  - the five addresses with the most errors (`TOP_IP_COUNT`, `src/config.py:31`).
- **Stand-alone parser.** `validate_ip` and `parse_log_line` come from the
  single-file analyzer. It uses the same pattern and IP rule, but strips the
  line first.
- **Python built-ins.** The Python behaviour the code relies on is stated in
  Dafny: `str.strip`, `str.split`, `str.join`, `int()` on text, and
  `datetime.strptime` / `strftime` for the fixed timestamp format.

Modules, one file each:

| file | module | models |
|---|---|---|
| `wrappers.dfy` | `Wrappers` | `Option`, standing for Python's `None` |
| `py_text.dfy` | `PyText` | `strip`, `split`/`join`, decimal digits, `int()`, zero padding |
| `log_format.dfy` | `LogFormat` | the anchored line pattern, the octet rule, the timestamp format |
| `log_parser.dfy` | `LogParsing` | `LogParser` and the record of an accepted line |
| `log_reader.dfy` | `LogReading` | `LogReader` over a file given as its physical lines |
| `frequency.dfy` | `FrequencyTables` | pandas `value_counts`, `head(k)` and `nunique` as explicit counting |
| `data_processor.dfy` | `DataProcessing` | `DataProcessor` and the statistics of `analyze` |
| `single_file_analyzer.dfy` | `SingleFileAnalyzer` | `validate_ip`, `parse_log_line` |

Each stateful method is proved against a specification function:
- `LogParser.ParseLine` against `ParseSpec`;
- `LogReader.ReadLines` against `Emitted` and `BlankCount`;
- `DataProcessor.Analyze` against `Summarize`.

The lemmas beside each function state what the source promises of it.

Some choices the model makes:
- A frequency table is a sequence of `(value, count)` pairs, most frequent
  first. This mirrors the ordered dictionary that `value_counts().to_dict()`
  builds. Among equal counts, the model keeps values in order of first
  appearance.
- Percentages are exact `real` numbers.
- Python's `None` and the empty statistics dictionary `{}` are both `None`.

## Model

| member | source | states |
|---|---|---|
| LogFormat.MatchLine | src/log_parser.py:18-23 | whatever the matcher returns has the anchored shape, with the four captured groups |
| LogFormat.MatchLineComplete | src/log_parser.py:18-23 | every line of the anchored shape is matched, with exactly its own groups |
| LogFormat.MatchLineCorrect | single_file_analyzer.py:29-34 | the matcher returns a set of groups if and only if the line has the anchored shape with those groups |
| LogFormat.QuadIp | src/log_parser.py:20 | four 1-3 digit groups joined by dots have the address shape; the address passes the octet rule exactly when every group is at most 255 |
| LogFormat.ValidShapedIp | src/log_parser.py:90-105 | on an address the pattern admits, the octet rule holds exactly when each group reads as at most 255 |
| LogFormat.OctetsDecimal | src/log_parser.py:94-105 | four digit groups pass the rule (four parts, each `int()` in 0..255) exactly when each value is at most 255 |
| LogFormat.OctetOkDecimal | src/log_parser.py:98-101 | a digit group is an octet exactly when its decimal value is at most 255 |
| LogFormat.EmptyOctetRejected | src/log_parser.py:97-103 | an address with an empty part (`1..2.3`, `1.2.3.`) fails the octet rule |
| LogFormat.FormatTimestamp | src/log_parser.py:71 | a valid date and time formats to text of the timestamp group's shape |
| LogFormat.ParseTimestamp | src/log_parser.py:70-73 | `strptime` yields a date and time only for text of the fixed `YYYY-MM-DD hh:mm:ss` shape, and only a real calendar date and 24-hour clock time |
| LogFormat.FormatParsedTimestamp | src/log_parser.py:70-73 | a timestamp that parses is a valid date, and formatting it gives back the original text |
| LogFormat.ParseFormattedTimestamp | src/log_parser.py:70-73 | every valid date and time parses back to itself after formatting |
| PyText.StripFacts | src/log_reader.py:69 | `strip()` removes an all-whitespace prefix and suffix, and what is left has no whitespace at either end |
| PyText.Strip | src/log_reader.py:69 | `strip()` never lengthens a string |
| PyText.StripIdempotent | src/log_reader.py:69 | stripping twice is stripping once |
| PyText.StripEmptyIff | src/log_reader.py:71 | a line strips to the empty string exactly when it is all whitespace |
| PyText.StripPadding | single_file_analyzer.py:52 | whitespace added around a string never changes what `strip()` returns |
| PyText.JoinSplit | src/log_parser.py:92 | joining the parts of `split('.')` with `.` gives the original string |
| PyText.SplitJoin | src/log_parser.py:92 | separator-free parts joined and split again are the same parts |
| PyText.SplitPartsNoSep | src/log_parser.py:92 | no part of a split contains the separator |
| PyText.Split | src/log_parser.py:92 | `split('.')` always yields at least one part |
| PyText.PyIntDecimal | src/log_parser.py:63 | `int()` on a string of ASCII digits succeeds with its decimal value |
| PyText.PyInt | src/log_parser.py:99 | `int()` on text that is empty or only whitespace raises (no value) |
| PyText.SeparatorNotSkipped | src/log_parser.py:99 | `int()` does not skip `\x1c` as `strip()` does: `int('\x1c1')` raises although the text strips to `1` |
| PyText.DigitsValuePad | src/log_parser.py:71 | reading back a zero-padded number gives the number |
| PyText.PadDigitsValue | src/log_parser.py:71 | re-padding the value of a digit string to its width gives the string |
| LogParsing.ParseSpecAccepts | src/log_parser.py:44-55 | a line yields a record if and only if it has the anchored shape and its address passes the octet rule |
| LogParsing.ParsedFields | src/log_parser.py:50-84 | the record holds the matched address, a listed method, the decimal status with `is_error` exactly for 400..599, the parsed timestamp and the unchanged input line |
| LogParsing.BadTimestampStillAccepted | src/log_parser.py:69-75 | a timestamp that is not a real date leaves the record without one, and the line is still accepted |
| LogParsing.OctetOutOfRangeRejected | src/log_parser.py:52-55 | a line of the right shape whose address has a group above 255 is rejected |
| LogParsing.QuadLine | src/log_parser.py:44-84 | a line built from the pattern's pieces is accepted exactly when every address group is at most 255, and its record is stated field by field |
| LogParsing.ScenarioAccepted | src/log_parser.py:44-84 | `…,192.168.1.1,GET,200` is accepted with status 200 and is not an error |
| LogParsing.ScenarioError | src/log_parser.py:62-64 | `…,192.168.1.1,GET,404` is accepted and is an error |
| LogParsing.ScenarioMalformed | src/log_parser.py:44-48 | a line of another shape is rejected |
| LogParsing.ScenarioOctetOutOfRange | src/log_parser.py:52-55 | `…,999.1.1.1,GET,200` passes the pattern and is rejected by the octet rule |
| LogParsing.ParseSpec | src/log_parser.py:44-84 | a record keeps the raw line, has an address that passes the octet rule and a listed method, and `is_error` holds exactly for statuses 400..599 |
| LogParsing.LogParser.constructor | src/log_parser.py:29-30 | both counters start at 0 |
| LogParsing.LogParser.ParseLine | src/log_parser.py:32-88 | returns the specified record or `None`; increments exactly one of the two counters by 1; the `UNKNOWN` method and the status fallback are proved unreachable |
| LogParsing.LogParser.IsValidIp | src/log_parser.py:90-105 | the loop with early returns decides exactly the octet rule |
| LogParsing.LogParser.GetStats | src/log_parser.py:107-116 | reports both counters; the success rate is 0 with no lines, otherwise the accepted share in percent; it lies in 0..100 and is 100 exactly when lines were seen and none failed |
| LogReading.LinesRead | src/log_reader.py:60-81 | a read gets through nothing when the file fails validation, all lines normally, and a prefix of them when it fails part-way |
| LogReading.Emitted | src/log_reader.py:67-75 | no more lines are handed out than physical lines were read |
| LogReading.EmittedTrimmed | src/log_reader.py:69-75 | every line handed out is non-empty and already stripped |
| LogReading.ReadStep | src/log_reader.py:67-75 | the next physical line is either handed out stripped or counted as skipped, before the rest |
| LogReading.EmittedAppend | src/log_reader.py:67-75 | reading two stretches of lines hands out and skips what each stretch does, in order |
| LogReading.EmittedPlusBlank | src/log_reader.py:67-73 | every physical line is either handed out or counted as skipped |
| LogReading.EmittedOrder | src/log_reader.py:67-75 | each non-blank physical line is handed out, stripped, after the lines before it |
| LogReading.TruncatedReadIsPrefix | src/log_reader.py:79-81 | a read cut short by a failure hands out a prefix of the full read's lines |
| LogReading.DrainedValidLines | src/log_reader.py:83-89 | for a drained read, lines read minus lines skipped is the number of lines handed out |
| LogReading.LogReader.constructor | src/log_reader.py:37-38 | both counters start at 0 |
| LogReading.LogReader.ReadLines | src/log_reader.py:53-81 | hands out the stripped non-blank lines in file order; adds every line read to `total_lines` and every blank one to `skipped_lines`, on top of earlier calls; `skipped_lines <= total_lines` is kept |
| LogReading.LogReader.GetStats | src/log_reader.py:83-89 | reports both counters, with `valid_lines` in 0..`total_lines` and `valid_lines + skipped_lines == total_lines` |
| FrequencyTables.TallyCounts | src/data_processor.py:63 | counting gives one entry per distinct value, each with its exact number of occurrences, and misses no value |
| FrequencyTables.TallySum | src/data_processor.py:63 | the counts add up to the length of the column |
| FrequencyTables.TallyOrder | src/data_processor.py:63 | entries appear in the order their values first occur |
| FrequencyTables.TallySize | src/data_processor.py:84 | the table has one entry per distinct value (`nunique`) |
| FrequencyTables.SortByCountFacts | src/data_processor.py:63 | sorting by count gives non-increasing counts, a permutation of the entries, and keeps equal counts in their order |
| FrequencyTables.ValueCountsFacts | src/data_processor.py:63 | `value_counts()` has distinct values with exact counts, most frequent first, covers every value, sums to the column length and has `nunique` entries |
| FrequencyTables.ValueCounts | src/data_processor.py:63 | the counts of `value_counts()` add up to the number of values counted |
| FrequencyTables.TopKFacts | src/data_processor.py:66 | `value_counts().head(k)` has `min(k, nunique)` entries, is a prefix of `value_counts()`, and no value left out occurs more often than one kept |
| FrequencyTables.TopK | src/data_processor.py:66 | `head(k)` is a prefix of `value_counts()` with at most `k` entries |
| FrequencyTables.UniqueBound | src/data_processor.py:84 | a column has at most as many distinct values as entries |
| DataProcessing.ErrorRecordsFacts | src/data_processor.py:59-60 | the error records are exactly the records flagged `is_error`; there are none exactly when no record is flagged |
| DataProcessing.PercentageFacts | src/data_processor.py:79 | the share is 0 for an empty whole, lies in 0..100, and scales back to the part |
| DataProcessing.SummaryCounts | src/data_processor.py:56-79 | `total_requests` is the number of records, `error_requests` the number of error records, `success_requests` the rest, and `error_percentage` the share of errors |
| DataProcessing.Summarize | src/data_processor.py:54-86 | `total_requests` is the number of records, errors never exceed it, and errors plus successes make up the total |
| DataProcessing.ErrorCodeDistribution | src/data_processor.py:63 | `error_code_distribution` counts the codes of error records only, with exact counts, most frequent first, summing to `error_requests` |
| DataProcessing.ErrorCodesAreErrors | src/data_processor.py:59-63 | for records the parser builds, every code in `error_code_distribution` is in 400..599 |
| DataProcessing.RequestDistributions | src/data_processor.py:69-72 | `request_type_distribution` counts all records and sums to `total_requests`; `error_by_request` counts error records and sums to `error_requests` |
| DataProcessing.TopErrorIps | src/data_processor.py:66 | `top_error_ips` has `min(5, unique_error_ips)` addresses of error records, with exact counts, most errors first, and no omitted address has more errors than a listed one |
| DataProcessing.UniqueIps | src/data_processor.py:84-85 | `unique_ips` and `unique_error_ips` count distinct addresses; the second is 0 exactly without errors and never exceeds the first, which never exceeds `total_requests` |
| DataProcessing.DataProcessor.constructor | src/data_processor.py:22-24 | an empty table and empty statistics |
| DataProcessing.DataProcessor.CreateDataframe | src/data_processor.py:26-39 | an empty list leaves the table as it was; otherwise the table becomes the list |
| DataProcessing.DataProcessor.Analyze | src/data_processor.py:41-93 | an empty table gives the empty result and keeps the stored statistics; otherwise the summary is stored and returned |
| DataProcessing.DataProcessor.GetStats | src/data_processor.py:125-127 | returns exactly what `analyze` last stored |
| SingleFileAnalyzer.ValidateIp | single_file_analyzer.py:36-48 | holds exactly when there are four `.`-separated parts, each read by `int()` as a number in 0..255 |
| SingleFileAnalyzer.StatusAlwaysReads | single_file_analyzer.py:61-65 | the status group always converts, so the `ValueError` branch is dead |
| SingleFileAnalyzer.ParseLogLineSpec | single_file_analyzer.py:50-73 | an entry is returned exactly when the stripped line matches and its address is valid, and the entry holds the groups, the status value and `is_error` for 400..599 |
| SingleFileAnalyzer.ParseLogLine | single_file_analyzer.py:50-73 | every entry has a timestamp of the pattern's shape, an address that passes the octet rule, and a listed method |
| SingleFileAnalyzer.EntryFacts | single_file_analyzer.py:56-73 | every entry has a timestamp of the pattern's shape, kept as text, a valid address, a listed method, and `is_error` exactly for 400..599 |
| SingleFileAnalyzer.PaddingIgnored | single_file_analyzer.py:52 | whitespace around a line never changes the result |
| SingleFileAnalyzer.AgreesWithLogParser | single_file_analyzer.py:50-73 | on the stripped line it accepts exactly what `LogParser` accepts, with the same fields, and its timestamp text parses to the record's timestamp |
| SingleFileAnalyzer.MatchedLineTrimmed | single_file_analyzer.py:29-34 | a line of the anchored shape begins and ends with a digit, so stripping leaves it alone |
| SingleFileAnalyzer.BlankEndNoMatch | single_file_analyzer.py:34 | a line ending in a blank never matches the anchored pattern |
| SingleFileAnalyzer.LogParserLinesAccepted | single_file_analyzer.py:52-59 | every line `LogParser` accepts is accepted here too |
| SingleFileAnalyzer.TrailingBlankOnlyHere | single_file_analyzer.py:52 | an accepted line with a trailing blank is still accepted here but rejected by `LogParser` |

## Left out

- File access in `LogReader` is not modelled: the existence and size checks and `open` (`src/log_reader.py:40-51, 66`). The file is a sequence of its physical lines. `validate_file` is a pass/fail flag. A read that fails part-way is the number of lines delivered before the failure.
- `LogReading.LogReader.ReadLines`: the generator is modelled as drained in one call. Interleaving with a consumer that stops early is not modelled.
- `LogReading.LogReader.ReadLines`: the relation `valid_lines == lines handed out` is not stated in the method's contract. It follows from the contract together with `DrainedValidLines`.
- Ties in `value_counts` are kept in order of first appearance. This is a choice the model makes; pandas does not promise an order among equal counts, and the order decides which addresses make the top five.
- Floating point is not modelled. Percentages are exact reals, and `round(…, 2)` in `LogParser.get_stats` is left out.
- LogParsing.LogParser.GetStats: the success rate is the exact share, without `round(…, 2)`. Its clause that the rate is 100.0 exactly when something was accepted and nothing failed holds for the exact share only: the rounded rate the source reports is also 100.0 when failures occur but the accepted share is at least 99.995%.
- `\d` in the pattern is limited to ASCII digits; Python also matches other Unicode decimal digits.
- `$` in the pattern also matches before a final newline. The model takes lines without a trailing newline; the reader strips them.
- `int()` is modelled as: surrounding whitespace, one sign, and ASCII digits with single underscores. The whitespace it skips is the ASCII blank, tab, line feed, vertical tab, form feed and carriage return, plus any non-ASCII whitespace; unlike `strip()` it does not skip `\x1c`..`\x1f` (`SeparatorNotSkipped`). Non-ASCII digits are left out.
- `LogFormat.ParseTimestamp` models `strptime` only on text of the fixed-width group shape. That shape is all the pattern lets through. Calendar checks cover years 1..9999, real month lengths with leap years, and a 24-hour clock.
- The blanket `except Exception` handlers (`src/log_parser.py:86-88`, `src/data_processor.py:91-93`) are left out: nothing in the model raises.
- `DataProcessor.show_summary` and `get_dataframe` are not modelled. The first only prints; the second returns the field.
- `single_file_analyzer.main` is not modelled: its counting loop is mixed with file and chart I/O. The web application, the browser script, chart rendering, report text, orchestration and the checker scripts are not part of this model.
- The `print` and logging calls are left out.
