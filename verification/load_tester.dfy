/**
 * The load tester: its configuration, its append-only result sink, the
 * final statistics reducer, and the body every request task runs once its
 * request has completed.
 */
module Tester {
  import opened Results
  import opened StatusCodes
  import opened Percentiles
  import opened Reducer
  import opened Live

  /** The run's configuration; durations are ints of nanoseconds. Only
      `requests` is read by the parts modelled here. */
  datatype Config = Config(
    url: string,
    httpMethod: string,
    headers: map<string, string>,
    body: string,
    concurrent: int,
    requests: int,
    duration: int,
    timeout: int,
    insecureTLS: bool)

  /** What the run publishes to its observer: one event per completed
      request, carrying the completion count, then the final statistics. */
  datatype Event = Progress(completed: int, result: Result) | Complete(stats: Stats)

  class LoadTester {
    const config: Config
    /** Every result recorded so far, in arrival order; never cleared. */
    var results: seq<Result>

    /** A tester with an empty result sink. */
    constructor (config: Config)
      ensures this.config == config && results == []
    {
      this.config := config;
      results := [];
    }

    /** Appends one completed result to the sink; nothing recorded before
        it changes. */
    method Record(r: Result)
      modifies this`results
      ensures results == old(results) + [r]
    {
      results := results + [r];
    }

    /** One pass over the sink computes the counters, the histogram, the
        running min and max and the latency sum; then, if there was any
        result, the average by truncating division and the floor-index
        percentiles of the latencies sorted in place. */
    method CalculateStats(totalTime: int) returns (stats: Stats)
      ensures stats == StatsOf(results, totalTime)
    {
      var rs := results;
      var n := |rs|;
      var successful, failed, totalBytes, totalResponseTime := 0, 0, 0, 0;
      var minResponseTime, maxResponseTime := 0, 0;
      var statusCodes: map<int, int> := map[];
      var responseTimes := new int[n];

      var i := 0;
      while i < n
        invariant 0 <= i <= n
        invariant successful == SuccessCount(rs[..i])
        invariant failed == FailCount(rs[..i])
        invariant totalBytes == Bytes(rs[..i])
        invariant totalResponseTime == TimeSum(rs[..i])
        invariant statusCodes == Histogram(rs[..i])
        invariant minResponseTime == SentinelMin(rs[..i])
        invariant maxResponseTime == MaxTime(rs[..i])
        invariant forall k :: 0 <= k < i ==> responseTimes[k] == rs[k].responseTime
      {
        var result := rs[i];
        assert rs[..i + 1] == rs[..i] + [result];
        AppendOne(rs[..i], result);
        HistogramAppend(rs[..i], result);
        if !result.hasError {
          successful := successful + 1;
          totalBytes := totalBytes + result.contentSize;
        } else {
          failed := failed + 1;
        }
        statusCodes := Bump(statusCodes, result.statusCode);
        responseTimes[i] := result.responseTime;
        totalResponseTime := totalResponseTime + result.responseTime;
        if minResponseTime == 0 || result.responseTime < minResponseTime {
          minResponseTime := result.responseTime;
        }
        if result.responseTime > maxResponseTime {
          maxResponseTime := result.responseTime;
        }
        i := i + 1;
      }
      assert rs[..n] == rs;
      assert responseTimes[..] == Times(rs);
      var avgResponseTime, percentiles := Summarize(rs, totalResponseTime, responseTimes);
      stats := Stats(n, successful, failed, totalTime, minResponseTime, maxResponseTime,
                     avgResponseTime, responseTimes[..], statusCodes, totalBytes, percentiles);
    }

    /** The second half of the reducer: with at least one result, the mean
        latency by truncating division, the latencies sorted in place, and
        the four percentiles read from them at their floor indices; with
        none, zero, the list untouched and no percentiles. */
    static method Summarize(rs: seq<Result>, totalResponseTime: int, responseTimes: array<int>)
      returns (avgResponseTime: int, percentiles: map<int, int>)
      requires totalResponseTime == TimeSum(rs) && responseTimes[..] == Times(rs)
      modifies responseTimes
      ensures responseTimes[..] == SortAscending(Times(rs))
      ensures avgResponseTime == if rs == [] then 0 else TruncDiv(TimeSum(rs), |rs|)
      ensures percentiles == if rs == [] then map[] else PercentileMap(SortAscending(Times(rs)))
    {
      var n := responseTimes.Length;
      avgResponseTime := 0;
      percentiles := map[];
      if n > 0 {
        avgResponseTime := TruncDiv(totalResponseTime, n);
        SortInPlace(responseTimes);
        percentiles := PercentileMap(responseTimes[..]);
      }
    }

    /** The run in the order its requests completed: `outcomes` are the
        results the executor produced, one per launched task. Each task
        merges its result into the live counters, appends it to the sink and
        publishes its completion count; after the last one the statistics are
        computed over the whole sink and published last. */
    method Run(outcomes: seq<Result>, totalTime: int) returns (stats: Stats, events: seq<Event>, live: LiveStats)
      requires |outcomes| == if config.requests > 0 then config.requests else 0
      modifies this`results
      ensures results == old(results) + outcomes
      ensures stats == StatsOf(results, totalTime)
      ensures |events| == |outcomes| + 1 && events[|outcomes|] == Complete(stats)
      ensures forall k :: 0 <= k < |outcomes| ==> events[k] == Progress(k + 1, outcomes[k])
      ensures fresh(live) && live.Valid() && live.merged == outcomes
    {
      live := new LiveStats();
      var completed := 0;
      events := [];
      var i := 0;
      while i < |outcomes|
        invariant 0 <= i <= |outcomes|
        invariant results == old(results) + outcomes[..i]
        invariant fresh(live) && live.Valid() && live.merged == outcomes[..i]
        invariant completed == i && |events| == i
        invariant forall k :: 0 <= k < i ==> events[k] == Progress(k + 1, outcomes[k])
      {
        var result := outcomes[i];
        live.Merge(result);
        Record(result);
        completed := completed + 1;
        events := events + [Progress(completed, result)];
        assert outcomes[..i + 1] == outcomes[..i] + [result];
        i := i + 1;
      }
      assert outcomes[..i] == outcomes;
      stats := CalculateStats(totalTime);
      events := events + [Complete(stats)];
    }
  }
}
