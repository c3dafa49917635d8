# log_analyzer in Dafny

A model of the core of `log_analyzer.py`, an nginx access-log analyser. The
core is the pipeline that runs from one log line to the report rows:

- **`LOG_RECORD_RE` and `process_line`** (`line_parser.dfy`, module
  `LineParser`): matches one line against the fixed field layout. It returns
  the request URL and the request time, in whole thousandths of a second, or
  nothing when the line does not match.
- **The line loop of `get_log_records`** (`aggregator.dfy`, module
  `Aggregator`): counts lines and non-matching lines. It appends each request
  time to its URL's list in file order and fails when the share of
  non-matching lines exceeds the error limit. The lines are a `seq<string>`.
- **`get_statistics`** (`statistics.dfy`, module `Statistics`): computes the
  total time and the total count over every URL. Then it builds one row per
  URL (count, shares of the totals, sum, mean, maximum, median) and keeps the
  first `report_size` rows.
- **`is_gzip_file`** (`file_names.dfy`, module `FileNames`).
- **Ranked variant** (`ranking.dfy`, module `Ranking`): the same rows ordered
  heaviest first before the cut. This is a deviation from the code, kept
  apart from the model of `get_statistics`. See "Findings".

`results.dfy` holds the `Option` and `Result` types.

Units and arithmetic:

- A request time is an exact `nat` count of thousandths of a second.
  `round(float(t), 3)` is modelled on the decimal text as half-up rounding on
  the fourth fraction digit (`LineParser.Millis`).
- The per-URL values are exact `real`s. `round(x, 3)` on them is
  `Statistics.Round3`, rounding to the nearest thousandth with ties going up.
- `\s` is the set of characters for which Python's `str.isspace()` holds. `\d`
  is ASCII `0`-`9`. `\S` is any character outside `\s`. `.` is any character
  but a newline.

The regular expression has no end anchor, and its user-agent field `".*"` is
greedy. `LineParser.Shaped(line, r)` states declaratively that the line is
the fields of record `r` laid out as the pattern lays them out, followed by
any trailing text. Of all such readings the regex engine reports the one with
the longest user agent. `Parse` is proved to return exactly that reading, and
nothing when there is none.

Three behaviours of the code that the model keeps as they are:

- With URLs whose total time is zero, `get_statistics` raises
  `ZeroDivisionError` (`Statistics.GetStatisticsFailsIff`).
- A matched time `\d+\.\d+` always converts with `float`, so the
  `except (ValueError, TypeError)` branch of `process_line` can never be
  reached. `LineParser.ProcessLine` has no such error path.
- `stat[:report_size]` cuts the rows without sorting them, in the order the
  URLs were first seen (`Aggregator.GroupFirstSeen`). The heaviest-first
  variant is the separate module `Ranking`.

## Model

| member | source | states |
|---|---|---|
| FileNames.IsGzipFileIff | log_analyzer.py:72-73 | a path is gzip exactly when it is `gz` or ends in `.gz` |
| FileNames.LastPieceIsSuffix | log_analyzer.py:73 | `split('.')[-1]` is the longest suffix free of `.`: all of the path when it has no `.`, otherwise the text after its last `.` |
| FileNames.Split | log_analyzer.py:73 | `split` returns at least one piece, none of them holds the separator, and there is exactly one piece (the string) when the separator is absent |
| FileNames.PlainTextIsNotGzip | test_log_analyzer.py:10-12 | `temp.txt` is not a gzip file |
| LineParser.ParseHead | log_analyzer.py:21-29 | a matched head is well formed and re-renders into the scanned text |
| LineParser.ParseHeadOf | log_analyzer.py:21-29 | every well-formed head is matched back exactly, leaving the text after it |
| LineParser.ParseBody | log_analyzer.py:30-34 | a matched body splits into a newline-free user agent and a well-formed tail that re-render into it |
| LineParser.ParseTailOf | log_analyzer.py:31-34 | every well-formed tail is matched back exactly |
| LineParser.Parse | log_analyzer.py:20-35 | a match is a decomposition of the line into the pattern's fields (`Shaped`) |
| LineParser.ParseIsLongestMatch | log_analyzer.py:20-35 | when the line has any decomposition, a match is found with the same head and the longest user agent; an equally long one is that match |
| LineParser.ParseNoneIff | log_analyzer.py:20-35 | no match exactly when the line has no decomposition into the pattern's fields |
| LineParser.ParseBodyIsLongest | log_analyzer.py:30 | `".*"` is greedy: the user agent found is at least as long as any that fits |
| LineParser.NoLaterTail | log_analyzer.py:30-34 | when the tail's fields hold no `"`, no longer user agent fits |
| LineParser.ParseOfQuoteFreeTail | log_analyzer.py:20-35 | a line rendered from a record whose tail fields hold no `"` is matched back into that same record |
| LineParser.LastMatchIsLast | log_analyzer.py:30 | the backtracking search finds a match whenever the rest of the pattern matches at some position, and it is at that position or later |
| LineParser.TimeOf | log_analyzer.py:34 | `\d+\.\d+` reads back the whole and fraction digits, stopping before the trailing text |
| LineParser.MillisExact | log_analyzer.py:90 | with at most three fraction digits the time in thousandths is exact |
| LineParser.MillisRounding | log_analyzer.py:90 | the model's rounding of the decimal text (half up on the fourth digit, not Python's binary half-even `round`) puts the time within half a thousandth of the exact decimal value |
| LineParser.FourthDigitSplit | log_analyzer.py:90 | the fraction splits into its first three digits, the fourth (the rounding digit) and the rest |
| LineParser.ProcessLine | log_analyzer.py:76-95 | a returned URL is a non-empty run of non-space characters |
| LineParser.ProcessLineNoneIff | log_analyzer.py:83-85 | `process_line` returns `None` exactly when no decomposition of the line exists |
| LineParser.ProcessLineUrl | log_analyzer.py:89-95 | on any line that has a decomposition the result is the `href` of the request field |
| LineParser.ProcessLineOfRecord | log_analyzer.py:76-95 | a rendered record with quote-free tail fields yields its `href` and its time rounded to thousandths |
| LineParser.NoSpaceNoMatch | log_analyzer.py:20-35 | a line without a space never matches |
| LineParser.ProcessIncorrectLine | test_log_analyzer.py:36-38 | `abcde` yields `None` |
| LineParser.SixtyMillis | test_log_analyzer.py:26-28 | the time field `0.060` is 60 thousandths (0.06 s) |
| Aggregator.GetLogRecords | log_analyzer.py:134-149 | the loop returns exactly `Aggregate`: the URLs' lists of matched times in file order, or the error when the share of non-matching lines exceeds the limit |
| Aggregator.NextOutcome | log_analyzer.py:139-145 | one more line either adds one error or appends its time to its URL's list |
| Aggregator.ErrorsAndSamples | log_analyzer.py:139-145 | errors plus appended samples equals the number of lines |
| Aggregator.SamplesAreMatches | log_analyzer.py:141-145 | a sample is appended exactly when some line yields it |
| Aggregator.GroupValid | log_analyzer.py:136-145 | the grouping lists each URL once, its keys are exactly those URLs, and no list is empty |
| Aggregator.AddValid | log_analyzer.py:145 | appending one sample keeps the grouping well formed |
| Aggregator.FirstAt | log_analyzer.py:136-145 | the position of the first sample with a URL: no earlier sample has it, and the sample there does (or there is none) |
| Aggregator.FirstAtAppend | log_analyzer.py:145 | appending a sample leaves the first position of an earlier URL unchanged, and a new URL's first position is the new sample |
| Aggregator.FirstSeenKept | log_analyzer.py:145 | appending a sample leaves the first positions of all listed URLs unchanged |
| Aggregator.AppendCovered | log_analyzer.py:145 | once the new sample's URL is listed, every sample's URL is listed |
| Aggregator.FirstSeenStep | log_analyzer.py:141-145 | one more `dict_url[url].append` keeps the URLs listed in order of first appearance |
| Aggregator.GroupFirstSeen | log_analyzer.py:136-145 | `dict_url` iterates in insertion order: it lists the URL of every sample, in the order of each URL's first sample |
| Aggregator.GroupTimes | log_analyzer.py:136-145 | a URL is a key exactly when some sample has it, and its list is that URL's times in file order |
| Aggregator.GroupTotal | log_analyzer.py:136-145 | the lists hold exactly as many times as there are samples |
| Aggregator.TotalUpdate | log_analyzer.py:145 | replacing one URL's list changes the total count by the difference in list lengths |
| Aggregator.GroupUrlsAreHrefs | log_analyzer.py:141-145 | every key is the URL of some matching line |
| Aggregator.AggregateFailsIff | log_analyzer.py:146-149 | the run fails exactly when the log is non-empty and errors/records exceeds the limit; otherwise the grouping is well formed |
| Aggregator.RunAsWrittenOutcome | log_analyzer.py:139-145 | as written, a non-matching line stops the loop with `TypeError`; otherwise the guard never fires and the grouping is the intended one |
| Aggregator.MatchedUrlsNonEmpty | log_analyzer.py:142 | a matching line's URL is never empty, so the guard `not url and not request_time` is never true |
| Aggregator.AsWrittenTypeError | log_analyzer.py:141 | as written, any non-matching line makes `get_log_records` raise `TypeError` |
| Aggregator.AsWrittenAgrees | log_analyzer.py:134-149 | on a non-empty log where every line matches, the code as written and the intended model agree |
| Aggregator.UnmatchedLineExample | log_analyzer.py:141 | the one-line log `abcde` raises `TypeError` as written, whatever the limit; as intended its error share is 1, so a limit below 1 refuses it and any other limit gives an empty grouping |
| Aggregator.EmptyLogExample | log_analyzer.py:146 | the empty log raises `ZeroDivisionError` as written; the intended model returns an empty grouping, whatever the limit |
| Statistics.GetStatistics | log_analyzer.py:152-179 | the two loops return exactly `GetStatisticsSpec`: totals first, then one row per URL in order, cut to `report_size`, or the error the first row raises |
| Statistics.TotalsStep | log_analyzer.py:162-164 | each URL adds its sum to the total time and its length to the total count |
| Statistics.RowsStep | log_analyzer.py:166-177 | each URL appends its row at the end |
| Statistics.GetStatisticsFailsIff | log_analyzer.py:160-173 | the result is `ZeroDivisionError` exactly when there are URLs and the total time is 0; it is the `statistics.mean` error exactly when the total is positive and some list is empty |
| Statistics.AggregatedNeverEmpty | log_analyzer.py:145-173 | on a grouping built by `get_log_records` the empty-list error cannot happen |
| Statistics.GroupingIsListed | log_analyzer.py:136-162 | such a grouping has a list for every URL it lists |
| Statistics.StatisticsRows | log_analyzer.py:166-178 | the result has min(`report_size`, #URLs) rows (Python slice rules for a negative size); row i is URL i in the grouping's order (the order of first appearance), with its count and its exact sum, and is that URL's full row over the totals of every URL (so `RowMeaning` and `RowShares` apply to it) |
| Statistics.RowMeaning | log_analyzer.py:169-177 | a row's count is the list length, its sum and maximum are exact (rounding whole thousandths changes nothing), and its mean and median are those of the list |
| Statistics.RowShares | log_analyzer.py:167-168 | `time_perc` and `count_perc` are within half a thousandth of the exact shares |
| Statistics.ExactSharesAddUp | log_analyzer.py:160-168 | over every URL the exact time shares, and separately the exact count shares, add up to exactly 100 |
| Statistics.RoundedSharesClose | log_analyzer.py:167-168 | the rounded shares add up to within half a thousandth per row of the exact ones |
| Statistics.ReportedSharesAddUp | log_analyzer.py:160-178 | when `report_size` keeps every URL, the reported `time_perc` and `count_perc` each add up to 100 within half a thousandth per row |
| Statistics.SingleUrlGetsAll | log_analyzer.py:166-178 | a single URL with positive time gets 100.0 for both shares |
| Statistics.GetStatisticsExample | test_log_analyzer.py:30-34 | times 0.1, 0.01, 0.03, 0.5 and size 1 give count 4, shares 100.0, sum 0.64, mean 0.16, max 0.5, median 0.065 |
| Statistics.Max | log_analyzer.py:174 | `max` is one of the values and no value exceeds it |
| Statistics.MeanTimesCount | log_analyzer.py:173 | the mean times the count is the sum |
| Statistics.SumBetween | log_analyzer.py:173 | values between two bounds add up to between the count times each bound |
| Statistics.QuotientBetween | log_analyzer.py:173 | such a sum, spread over the count, lies between the bounds |
| Statistics.MeanBetween | log_analyzer.py:173 | `statistics.mean` lies between any lower and any upper bound of the values |
| Statistics.SortSorted | log_analyzer.py:175 | the sorted copy that `median` takes is sorted and holds the same values |
| Statistics.InsertSorted | log_analyzer.py:175 | inserting into sorted values keeps them sorted |
| Statistics.InsertPermutes | log_analyzer.py:175 | inserting adds exactly the one value |
| Statistics.SortCount | log_analyzer.py:175 | sorting keeps how many values pass any test |
| Statistics.SortedUnique | log_analyzer.py:175 | sorted values are determined by the values they hold |
| Statistics.MedianSplits | log_analyzer.py:175 | at least half of the values are at most the median, and at least half are at least the median |
| Statistics.MedianBounds | log_analyzer.py:175 | the median is at most the maximum and at least some value |
| Statistics.Round3Near | log_analyzer.py:167-177 | `round(x, 3)` moves a value by at most half a thousandth |
| Statistics.Round3Exact | log_analyzer.py:174-177 | `round(x, 3)` leaves a whole number of thousandths unchanged |
| Statistics.TimeNeedsRecords | log_analyzer.py:160-164 | a positive total time implies a positive total count, so `count_perc` never divides by zero once `time_perc` did not |
| Ranking.RankRanks | log_analyzer.py:178 | the ranked rows are ordered by `time_sum` (then count, then URL) and are a permutation of the rows |
| Ranking.InsertRowRanked | log_analyzer.py:178 | inserting a row into ranked rows keeps them ranked |
| Ranking.InsertRowPermutes | log_analyzer.py:178 | inserting adds exactly the one row |
| Ranking.RankTransitive | log_analyzer.py:178 | the report order is transitive |
| Ranking.RankTotal | log_analyzer.py:178 | any two rows are comparable in the report order |
| Ranking.RankedTop | log_analyzer.py:178 | the first k ranked rows are heaviest first, and none of the rows after them is heavier |
| Ranking.RankedFailsIff | log_analyzer.py:160-178 | the ranked report fails exactly when `get_statistics` fails, with the same error |
| Ranking.RankedReport | log_analyzer.py:178 | otherwise it keeps as many rows as `stat[:report_size]` would (Python slice rules, negative sizes included), heaviest first, and no row left out is heavier than a kept one |
| Ranking.UnsortedCutExample | log_analyzer.py:178 | as written, URLs of 5 s, 1 s and 50 s with size 2 report the 5 s and 1 s rows and leave out the 50 s one |
| Ranking.RankThree | log_analyzer.py:178 | three rows with middle, lowest and highest total time are ranked highest, middle, lowest |
| Ranking.ThreeUrlsRanked | log_analyzer.py:178 | the ranked two-row report of the same grouping is the `/b` row and then the `/a` row |
| Ranking.RankedCutExample | log_analyzer.py:178 | the ranked report of the same grouping keeps `/b` and `/a`, heaviest first, and leaves out only lighter rows |

## Left out

- Reading the file is I/O and is not modelled: `gzip.open`/`io.open` and `readlines` in `get_log_records`. The lines are a parameter.
- `create_report` (template read, JSON substitution, write) is file I/O and is not modelled.
- `load_config`, `setup_logging`, `get_args`, `main` and every `logging` call are configuration and logging glue. The error limit and the report size are parameters.
- `get_latest_log_info` depends on `os.listdir` and `strptime`. Its `except TypeError` does not catch the `ValueError` that `strptime` raises on a bad date.
- `get_report_path` is a wrapper over `strftime` and `os.path.join`.
- Floating point is not modelled: durations are exact thousandths and statistics are exact reals. So `round` is exact half-up rounding, not IEEE-754 binary rounding with its ties. Summation drift is absent. A mean or median with more than three decimals is exact rather than the nearest double.
- LineParser.IsDigit: `\d` is ASCII digits only. Python also accepts other Unicode decimal digits, which `float` would then read.
- LineParser.ProcessLine: the long line of the `process_line` test is not checked character by character. `ProcessLineOfRecord` covers it in general (its tail fields hold no `"`), and `SixtyMillis` pins its time of 0.060.
- LineParser.ParseOfQuoteFreeTail: it is stated only for tails whose fields hold no `"`. With a `"` in those fields a longer user agent can exist; `ParseIsLongestMatch` covers that case.
- Statistics.RowMeaning: `time_avg` and `time_med` are stated through `Mean` and `Median`. Their meaning is proved separately (`MeanTimesCount`, `MeanBetween`, `MedianSplits`, `MedianBounds`).

## Findings

| source | as written | input that shows it | evidently intended | confidence | as-written member | corrected member |
|---|---|---|---|---|---|---|
| log_analyzer.py:141-144 | `url, request_time = process_line(...)` unpacks `None` for a line that does not match, raising `TypeError`; the guard at :142 can never be true after a match | the one-line log `abcde` | count the line as an error and go on | high; not executed | Aggregator.UnmatchedLineExample | Aggregator.AggregateFailsIff |
| log_analyzer.py:146 | `errors / records` divides by zero on an empty log | the empty list of lines | an empty log has no errors and yields an empty grouping, whatever the limit | high; not executed | Aggregator.EmptyLogExample | Aggregator.GetLogRecords |
| log_analyzer.py:178 | `stat[:report_size]` cuts rows in the dictionary's insertion order, so heavier URLs can be left out of the report | URLs with total times 5 s, 1 s, 50 s in that order and `report_size` 2 | order the rows by `time_sum`, larger first, before the cut | medium; not executed | Ranking.UnsortedCutExample | Ranking.RankedReport |
