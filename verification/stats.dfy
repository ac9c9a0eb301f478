/**
 * The final statistics record and its specification: what the reducer
 * computes from the accumulated results and the measured wall time.
 */
module Reducer {
  import opened Results
  import opened StatusCodes
  import opened Percentiles

  /** The final report. `percentiles` is empty exactly when the source leaves
      its map unset (nil); `responseTimes` is the sorted latency list. */
  datatype Stats = Stats(
    totalRequests: int,
    successfulReqs: int,
    failedReqs: int,
    totalTime: int,
    minResponseTime: int,
    maxResponseTime: int,
    avgResponseTime: int,
    responseTimes: seq<int>,
    statusCodes: map<int, int>,
    totalBytes: int,
    percentiles: map<int, int>)

  /** The record the reducer produces from `rs`, in the order the results
      arrived, and the run's wall time. */
  function StatsOf(rs: seq<Result>, totalTime: int): Stats {
    var n := |rs|;
    var sorted := SortAscending(Times(rs));
    Stats(n, SuccessCount(rs), FailCount(rs), totalTime, SentinelMin(rs), MaxTime(rs),
          if n > 0 then TruncDiv(TimeSum(rs), n) else 0,
          sorted, Histogram(rs), Bytes(rs),
          if n > 0 then PercentileMap(sorted) else map[])
  }

  /** A run without results reports zeros, no histogram buckets, an empty
      latency list and no percentiles; only the wall time is carried over. */
  lemma EmptyRun(totalTime: int)
    ensures StatsOf([], totalTime) == Stats(0, 0, 0, totalTime, 0, 0, 0, [], map[], 0, map[])
  {
  }

  /** Whatever the latencies, the reported list is their ascending
      rearrangement, and a run with results reports exactly the four
      percentiles, each an observed latency. */
  lemma StatsShape(rs: seq<Result>, totalTime: int)
    ensures var s := StatsOf(rs, totalTime);
      && Sorted(s.responseTimes) && multiset(s.responseTimes) == multiset(Times(rs))
      && (rs != [] ==> s.percentiles.Keys == {50, 90, 95, 99}
                       && forall p :: p in s.percentiles ==> s.percentiles[p] in Times(rs))
  {
    if rs != [] {
      PercentilesOrdered(Times(rs));
    }
  }

  /** The counters add up: one request per result, each either successful
      or failed according to its error alone, bytes from successes only, and
      a histogram whose buckets sum to the number of requests. */
  lemma StatsCounts(rs: seq<Result>, totalTime: int, ks: seq<int>)
    ensures var s := StatsOf(rs, totalTime);
      && s.totalRequests == |rs|
      && s.successfulReqs + s.failedReqs == s.totalRequests
      && s.failedReqs == multiset(ErrorFlags(rs))[true]
      && s.totalBytes == SumSizes(Successes(rs))
      && (Covers(ks, s.statusCodes) ==> SumOver(s.statusCodes, ks) == s.totalRequests)
  {
    CountsAddUp(rs);
    FailuresAreErrors(rs);
    BytesOverSuccesses(rs);
    if Covers(ks, Histogram(rs)) {
      HistogramTotal(rs, ks);
    }
  }

  /** With at least one result and all latencies positive: min <= avg <= max,
      the percentiles ascend between min and max and are observed latencies,
      and the reported latency list is the ascending rearrangement of the
      observed ones. */
  lemma StatsLatencies(rs: seq<Result>, totalTime: int)
    requires |rs| > 0 && AllPositive(rs)
    ensures var s := StatsOf(rs, totalTime);
      && s.minResponseTime <= s.avgResponseTime <= s.maxResponseTime
      && s.percentiles.Keys == {50, 90, 95, 99}
      && s.minResponseTime <= s.percentiles[50] <= s.percentiles[90]
      && s.percentiles[90] <= s.percentiles[95] <= s.percentiles[99] <= s.maxResponseTime
      && (forall p :: p in s.percentiles ==> s.percentiles[p] in Times(rs))
      && Sorted(s.responseTimes) && multiset(s.responseTimes) == multiset(Times(rs))
  {
    var s := StatsOf(rs, totalTime);
    AvgBetweenMinMax(rs);
    MinMaxBounds(rs);
    PercentilesOrdered(Times(rs));
    var p50, p99 := s.percentiles[50], s.percentiles[99];
    assert s.minResponseTime <= p50 by {
      assert p50 in Times(rs);
    }
    assert p99 <= s.maxResponseTime by {
      assert p99 in Times(rs);
    }
  }

  /** The sink is never cleared, so a report computed after a second run on
      the same tester covers both runs: its totals are the sums of what each
      run alone would report. */
  lemma RerunAccumulates(first: seq<Result>, second: seq<Result>, totalTime: int)
    ensures var both, s1, s2 := StatsOf(first + second, totalTime), StatsOf(first, totalTime), StatsOf(second, totalTime);
      && both.totalRequests == s1.totalRequests + s2.totalRequests
      && both.successfulReqs == s1.successfulReqs + s2.successfulReqs
      && both.failedReqs == s1.failedReqs + s2.failedReqs
      && both.totalBytes == s1.totalBytes + s2.totalBytes
  {
    CountsConcat(first, second);
  }

  /** Results that all share one status code and one error flag. */
  ghost predicate Uniform(rs: seq<Result>, code: int, failed: bool) {
    forall i :: 0 <= i < |rs| ==> rs[i].statusCode == code && rs[i].hasError == failed
  }

  lemma {:induction false} UniformCounts(rs: seq<Result>, code: int, failed: bool)
    requires Uniform(rs, code, failed)
    ensures Histogram(rs) == if rs == [] then map[] else map[code := |rs|]
    ensures FailCount(rs) == (if failed then |rs| else 0)
    ensures SuccessCount(rs) == (if failed then 0 else |rs|)
    ensures failed ==> Bytes(rs) == 0
  {
    if rs != [] {
      assert Uniform(Init(rs), code, failed) by {
        forall i | 0 <= i < |rs| - 1 ensures Init(rs)[i] == rs[i] { }
      }
      UniformCounts(Init(rs), code, failed);
    }
  }

  /** A run against an endpoint that always fails to connect: every request
      failed, no bytes, and one bucket for status 0 holding them all. */
  lemma ConnectFailureScenario(rs: seq<Result>, totalTime: int)
    requires |rs| > 0 && Uniform(rs, 0, true)
    ensures var s := StatsOf(rs, totalTime);
      && s.failedReqs == |rs| && s.successfulReqs == 0 && s.totalBytes == 0
      && s.statusCodes == map[0 := |rs|]
  {
    UniformCounts(rs, 0, true);
  }

  /** A request that round-tripped counts as successful whatever its status
      code, 4xx and 5xx included. */
  lemma StatusNeverFails(rs: seq<Result>, totalTime: int)
    requires forall i :: 0 <= i < |rs| ==> !rs[i].hasError
    ensures var s := StatsOf(rs, totalTime);
      s.successfulReqs == |rs| && s.failedReqs == 0
  {
    FailuresAreErrors(rs);
    CountsAddUp(rs);
    assert multiset(ErrorFlags(rs))[true] == 0 by {
      assert true !in ErrorFlags(rs);
    }
  }

  /** A single successful request with a positive latency: every
      percentile, the minimum, the maximum and the average are that latency. */
  lemma SingleRequestScenario(r: Result, totalTime: int)
    requires !r.hasError && r.responseTime > 0
    ensures var s := StatsOf([r], totalTime);
      && s.totalRequests == 1 && s.successfulReqs == 1 && s.failedReqs == 0
      && s.totalBytes == r.contentSize && s.statusCodes == map[r.statusCode := 1]
      && s.percentiles == map[50 := r.responseTime, 90 := r.responseTime,
                              95 := r.responseTime, 99 := r.responseTime]
      && s.minResponseTime == s.avgResponseTime == s.maxResponseTime == r.responseTime
  {
    var rs := [r];
    assert Init(rs) == [];
    assert SuccessCount(rs) == SuccessCount([]) + 1;
    assert FailCount(rs) == FailCount([]);
    assert Bytes(rs) == Bytes([]) + r.contentSize;
    assert TimeSum(rs) == TimeSum([]) + r.responseTime;
    assert SentinelMin(rs) == MinStep(SentinelMin([]), r.responseTime);
    assert MaxTime(rs) == MaxStep(MaxTime([]), r.responseTime);
    assert Histogram(rs) == Bump(Histogram([]), r.statusCode);
    assert Times(rs) == [r.responseTime];
    assert SortAscending([r.responseTime]) == [r.responseTime] by {
      assert [r.responseTime][1..] == [];
    }
  }
}
