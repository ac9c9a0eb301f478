# brutal: result aggregation, modelled in Dafny

brutal is an HTTP load tester. It fires a fixed number of requests with
bounded concurrency and turns their outcomes into a report. The model covers
the part of `main.go` that does arithmetic on those outcomes:

- **the result sink** (`LoadTester.results`): an append-only list of
  per-request `Result`s, created empty and never cleared;
- **the live aggregator** (`LiveStats`): running counters that absorb one
  result at a time while the run is in progress. The source has the same
  merge block twice, once in the worker closure (main.go:230-246) and once
  in the terminal UI's progress handler (main.go:424-440). `Live.LiveStats.Merge`
  models that block once;
- **the final reducer** (`calculateStats`): it makes one pass over the sink
  to compute the counters, the status histogram, a running min and max and
  the latency sum. If there was at least one result, it then computes the
  average by integer division, sorts the latencies in place, and reads the
  50th, 90th, 95th and 99th percentiles at the floor index `len*p/100`.

Encoding:

- A `time.Duration` is an `int` of nanoseconds, and a result's optional
  error becomes `hasError: bool`.
- The histogram is a `map<int, int>`. Go's `m[code]++` reads a missing key
  as 0, which `StatusCodes.Bump` writes out.
- `LoadTester` and `LiveStats` are classes whose methods update their
  fields.
- `calculateStats` keeps its loop.
- The latency slice is an `array<int>`, sorted in place by an insertion
  sort. `Percentiles.SortInPlace` proves that this sort leaves exactly the
  ascending rearrangement `SortAscending`, which is all `sort.Slice` promises
  for a list of ints.

Every aggregate has one specification function over `seq<Result>`, in the
`Results` and `StatusCodes` modules. The running ones (`SuccessCount`,
`FailCount`, `Bytes`, `TimeSum`, `SentinelMin`, `MaxTime` and `Histogram`)
are defined by recursion on the last result. That is the order in which
both the live aggregator and the reducer absorb results. The per-result
projections `Times`, `ErrorFlags` and `Codes` are plain sequence
comprehensions. `Reducer.StatsOf` is the report those functions
define. The reducer loop is proved to compute it, and the live counters are
proved to stay equal to the same functions (`LiveStats.Valid`).

Behaviour of the code that the model keeps as written:

- **Percentile index.** The source reads the p-th percentile at the 0-based
  index `len*p/100`, rounded down (main.go:322-325). The nearest-rank rule
  reads it at `ceil(len*p/100) - 1`. The two are equal when `len*p` is not a
  multiple of 100. When it is, the source's index is one higher and picks the
  next sample up (`Percentiles.FloorVersusNearestRank`). At the default of
  100 requests (main.go:637) this happens for all four percentiles
  (`Percentiles.HundredRequests`). The model follows the source.
- **Failure means an error.** A result fails only when it carries an error.
  Any status code, 4xx and 5xx included, counts as a success
  (`Reducer.StatusNeverFails`).
- **The minimum's sentinel.** The minimum uses 0 to mean "unset". A
  0-latency result therefore makes the next latency the new minimum, and the
  reported minimum can then exceed the average
  (`Results.ZeroLatencyResetsMin`). With positive latencies, min and max are
  the true extremes.
- **The average.** It is Go's truncating integer division, written out as
  `Results.TruncDiv`. It differs from Dafny's Euclidean `/` only when the
  latency sum is negative.
- **An empty run.** It reports zeros. Its latency list and percentile map
  are left unset, modelled as empty (`Reducer.EmptyRun`).
- **A second run counts both.** With an output file, `main` runs the same
  tester again (main.go:716-726) to obtain a report to save. The sink is
  never cleared, so that report also covers what the first run appended.
  - With `-no-tui`, `main` drains the first run's channel until it closes
    (main.go:696), so the first run has finished and the saved report covers
    2N requests for a configured N.
  - In the terminal UI the first run's progress channel holds 100 messages
    and only one is ever read (main.go:397, 408-414). With more than about
    100 + C requests (C the concurrency), the first run's tasks block on
    their progress sends and it stops appending. A user who quits early can
    also leave it still appending while the second run reports. The saved
    report then covers whatever the first run had appended, plus the N
    results of the second.

  `Tester.LoadTester.Run` appends to whatever the sink already holds, and
  `Reducer.RerunAccumulates` shows that the totals add up. The model does
  not capture the interleaving of two overlapping runs.
- **The order within a task.** Each task merges into the live counters
  before appending to the sink (main.go:230-250). `Tester.LoadTester.Run`
  keeps that order.

## Model

| member | source | states |
|---|---|---|
| Results.CountsAddUp | main.go:291-297 | every result is counted exactly once, as a success or as a failure, so the two tallies add up to the number of results |
| Results.FailuresAreErrors | main.go:292-297 | the failure tally is the number of results carrying an error, and the success tally the number without one |
| Results.BytesOverSuccesses | main.go:292-294 | the byte total is the sum of content sizes over the error-free results only, and there are as many of those as the success tally |
| Results.CountsConcat | main.go:291-297 | the success and failure tallies and the byte total of two lists laid end to end are the sums of those of each list |
| Results.MinMaxBounds | main.go:303-308 | with at least one result and positive latencies, the reported min and max are observed latencies and bound every latency |
| Results.TruncDiv | main.go:312 | the quotient truncates toward zero: its remainder has the sign of the dividend and is smaller than the divisor in magnitude |
| Results.AvgBetweenMinMax | main.go:301-312 | with at least one result and positive latencies, min <= sum/count <= max |
| Results.ZeroLatencyResetsMin | main.go:303-305 | a zero latency is taken for "unset": for latencies 5, 0, 7 the reported min is 7 while the average is 4 |
| StatusCodes.BumpOnly | main.go:299 | incrementing a bucket raises it by one, creating it at 1 if missing, and changes no other bucket |
| StatusCodes.HistogramTotal | main.go:299 | the buckets of the histogram sum to the number of results |
| StatusCodes.HistogramCounts | main.go:299 | there is a bucket for exactly the status codes that occur, and each holds the number of results with that code, failed ones included |
| Percentiles.Insert | main.go:317-319 | inserting into an ascending list keeps it ascending and adds exactly the one element |
| Percentiles.SortAscending | main.go:317-319 | the reference sort: an ascending permutation of its input |
| Percentiles.SortedUnique | main.go:317-319 | two ascending lists with the same elements are equal, so the in-place sort's output is determined |
| Percentiles.SiftDown | main.go:317-319 | moving one element into an ascending prefix extends the prefix, rearranges only the first i+1 elements among themselves and leaves the rest of the array as it was |
| Percentiles.SortInPlace | main.go:317-319 | the array is left holding exactly the ascending rearrangement of its old contents |
| Percentiles.PercentileIndex | main.go:322-325 | for a non-empty list and a percentile below 100, the floor index `len*p/100` is in bounds |
| Percentiles.FloorVersusNearestRank | main.go:322-325 | the floor index is one above the nearest-rank index `ceil(n*p/100)-1` exactly when `n*p` is a multiple of 100, and equal to it otherwise |
| Percentiles.HundredRequests | main.go:322-325 | for 100 results each of the 50th, 90th, 95th and 99th percentiles is read at index p, one above its nearest-rank index |
| Percentiles.IndicesAscend | main.go:322-325 | the floor indices of the 50th, 90th, 95th and 99th percentiles do not decrease |
| Percentiles.PercentilesOrdered | main.go:313-326 | the percentiles read from the sorted latencies have exactly the keys 50, 90, 95, 99, ascend in that order, and are observed latencies |
| Reducer.EmptyRun | main.go:282-286 | with no results the report is all zeros except the wall time, with an empty histogram, no latency list and no percentiles |
| Reducer.StatsShape | main.go:313-326 | the reported latency list is the ascending rearrangement of the observed latencies, and a non-empty run reports exactly four percentiles, each an observed latency |
| Reducer.StatsCounts | main.go:282-299 | total = number of results = successes + failures, failures = results with an error, bytes = sum over successes, and the histogram sums to the total |
| Reducer.StatsLatencies | main.go:301-326 | with positive latencies: min <= avg <= max, min <= p50 <= p90 <= p95 <= p99 <= max, each percentile an observed latency, and the list sorted and a permutation |
| Reducer.RerunAccumulates | main.go:716-726 | a report over a sink holding two runs' results has as totals, successes, failures and bytes the sums of the two runs' own reports |
| Reducer.ConnectFailureScenario | main.go:291-299 | when every request fails without a response, all are failures, no bytes are counted and the single status-0 bucket holds them all |
| Reducer.StatusNeverFails | main.go:292-297 | when no result carries an error, every result is a success whatever its status code |
| Reducer.SingleRequestScenario | main.go:281-330 | for one successful request, the counts are 1/1/0, the bytes are its size, and min, max, avg and every percentile are its latency |
| Live.LiveStats.constructor | main.go:213-217 | fresh counters are zero, with an empty histogram and history, consistent with no merged results |
| Live.LiveStats.Merge | main.go:230-246 | exactly one tally grows by one, bytes grow only for an error-free result, only the result's status bucket is incremented, the latency is appended at the end, max does not decrease and covers the latency, min does not exceed it, and the counters stay equal to the aggregates of all merged results |
| Live.LiveStats.Consistent | main.go:230-246 | the live tallies add up to the number of merged latencies, the histogram sums to it, and with positive latencies min and max bound the history |
| Live.LiveStats.MatchesReport | main.go:230-246 | once every result has been merged, the live tallies, bytes, histogram, min and max equal those of the final report over the same results |
| Tester.LoadTester.constructor | main.go:148-152 | a new tester keeps its configuration and starts with an empty result sink |
| Tester.LoadTester.Record | main.go:248-250 | appending to the sink adds the result at the end and changes nothing recorded before it |
| Tester.LoadTester.CalculateStats | main.go:281-330 | the single pass plus the average, sort and percentile step produce exactly the report `StatsOf` the aggregates define for the current sink |
| Tester.LoadTester.Summarize | main.go:311-326 | with results: the truncating average, the latencies sorted in place, and the four floor-index percentiles; with none, zero and no percentiles |
| Tester.LoadTester.Run | main.go:219-278 | the sink grows by the outcomes in completion order, one progress event per completion numbered 1, 2, ..., then one final event with the report over the whole sink; the live counters end equal to the aggregates of the outcomes |

## Left out

- makeRequest (main.go:156-202): building and sending the HTTP request,
  reading the body and timing it call into `net/http`, `io` and the clock.
  A `Result` is an input to the model.
- The dispatcher's concurrency: goroutines, the semaphore channel, the wait
  group, the mutexes, and abandoning a publish on `ctx.Done()`.
  `Tester.LoadTester.Run` takes the results in the order the tasks completed
  and runs each task's body in that order. Interleavings, the concurrency
  cap, and events dropped on cancellation are not modelled. The edge cases of
  the semaphore are not modelled either. With `Concurrent == 0` and at least
  one request, the source blocks forever on the unbuffered channel
  (main.go:208, 221). With `Concurrent < 0`, `make` panics (main.go:208).
  `Tester.LoadTester.Run` completes for every configuration.
- Tester.LoadTester.Run: the wall time is a parameter. It is not measured.
- `RequestsPerSec` (main.go:314) and every percentage or megabyte figure in
  the views: these are floating-point arithmetic and formatting.
- The terminal UI (`initialModel`, `Init`, `Update` apart from the merge
  block, `View`, the styles), `formatStatusCodes`, `printSimpleStats`, flag
  parsing, the header JSON decoding and `SaveResultsToJSON`: presentation,
  CLI and file I/O.
- `time.Duration` and the byte counters are 64-bit in the source. The model
  uses unbounded integers, so a latency sum or byte total that would
  overflow is not modelled.
- For an empty run the source leaves the latency slice and the percentile
  map nil. The model uses the empty sequence and the empty map there, and
  does not distinguish nil from empty.
- Live.LiveStats.Merge: the lock around the block is not modelled. Of the
  two copies of the block, the model shows only that the one in the worker
  agrees with the final report. The UI copy runs the same updates on a
  separate `LiveStats`.
- Config: only `Requests` is read by the modelled code. The other fields are
  carried but not interpreted.
