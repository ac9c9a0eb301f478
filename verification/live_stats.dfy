/**
 * The live aggregator: running counters that absorb one result at a time
 * while the run is in progress. The worker goroutine and the terminal UI's
 * progress handler each keep one and update it with the same block of code;
 * `Merge` models that block once.
 */
module Live {
  import opened Results
  import opened StatusCodes
  import opened Reducer

  class LiveStats {
    var successful: int
    var failed: int
    var totalBytes: int
    var responseTimes: seq<int>
    var statusCodes: map<int, int>
    var minResponseTime: int
    var maxResponseTime: int

    /** The results merged so far, in merge order. */
    ghost var merged: seq<Result>

    /** Every counter equals the aggregate of the merged results. */
    ghost predicate Valid()
      reads this
    {
      && successful == SuccessCount(merged)
      && failed == FailCount(merged)
      && totalBytes == Bytes(merged)
      && responseTimes == Times(merged)
      && statusCodes == Histogram(merged)
      && minResponseTime == SentinelMin(merged)
      && maxResponseTime == MaxTime(merged)
    }

    /** Fresh counters: zero everywhere, an empty histogram and history. */
    constructor ()
      ensures Valid() && merged == []
      ensures successful == 0 && failed == 0 && totalBytes == 0
      ensures responseTimes == [] && statusCodes == map[]
      ensures minResponseTime == 0 && maxResponseTime == 0
    {
      successful, failed, totalBytes := 0, 0, 0;
      responseTimes, statusCodes := [], map[];
      minResponseTime, maxResponseTime := 0, 0;
      merged := [];
    }

    /** Absorbs one result: exactly one of the two tallies grows, bytes grow
        only for an error-free result, the result's status bucket is bumped
        (`BumpOnly`: by one, and no other bucket changes), its latency is
        appended to the history,
        and the running min and max take it into account. */
    method Merge(r: Result)
      requires Valid()
      modifies this
      ensures Valid() && merged == old(merged) + [r]
      ensures successful + failed == old(successful + failed) + 1
      ensures successful == old(successful) + (if r.hasError then 0 else 1)
      ensures totalBytes == old(totalBytes) + (if r.hasError then 0 else r.contentSize)
      ensures responseTimes == old(responseTimes) + [r.responseTime]
      ensures statusCodes == Bump(old(statusCodes), r.statusCode)
      ensures old(maxResponseTime) <= maxResponseTime && r.responseTime <= maxResponseTime
      ensures maxResponseTime == old(maxResponseTime) || maxResponseTime == r.responseTime
      ensures minResponseTime <= r.responseTime
      ensures minResponseTime == old(minResponseTime) || minResponseTime == r.responseTime
    {
      AppendOne(merged, r);
      HistogramAppend(merged, r);
      merged := merged + [r];

      if !r.hasError {
        successful := successful + 1;
        totalBytes := totalBytes + r.contentSize;
      } else {
        failed := failed + 1;
      }
      statusCodes := Bump(statusCodes, r.statusCode);
      responseTimes := responseTimes + [r.responseTime];

      if minResponseTime == 0 || r.responseTime < minResponseTime {
        minResponseTime := r.responseTime;
      }
      if r.responseTime > maxResponseTime {
        maxResponseTime := r.responseTime;
      }

    }

    /** What the invariant gives a reader of the counters: the tallies and
        the histogram both account for every merged latency, and with positive
        latencies the min and max bound the whole history. */
    lemma Consistent(ks: seq<int>)
      requires Valid()
      ensures successful + failed == |responseTimes| == |merged|
      ensures Covers(ks, statusCodes) ==> SumOver(statusCodes, ks) == |responseTimes|
      ensures merged != [] && AllPositive(merged) ==>
        forall i :: 0 <= i < |responseTimes| ==> minResponseTime <= responseTimes[i] <= maxResponseTime
    {
      CountsAddUp(merged);
      if Covers(ks, statusCodes) {
        HistogramTotal(merged, ks);
      }
      if merged != [] && AllPositive(merged) {
        MinMaxBounds(merged);
      }
    }

    /** Once every result of the run has been merged, the live counters show
        what the final report says. */
    lemma MatchesReport(totalTime: int)
      requires Valid()
      ensures var s := StatsOf(merged, totalTime);
        && successful == s.successfulReqs && failed == s.failedReqs
        && totalBytes == s.totalBytes && statusCodes == s.statusCodes
        && minResponseTime == s.minResponseTime && maxResponseTime == s.maxResponseTime
        && multiset(responseTimes) == multiset(s.responseTimes)
    {
    }
  }
}
