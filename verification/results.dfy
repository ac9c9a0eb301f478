/**
 * The outcome of one request and the per-result aggregates that both the
 * live aggregator and the final reducer maintain. Every aggregate is defined
 * by recursion on the LAST result, because both consumers absorb results one
 * at a time, in arrival order.
 */
module Results {

  /** One request's outcome. A `time.Duration` is an int of nanoseconds and
      the optional error is reduced to whether it is present. */
  datatype Result = Result(statusCode: int, responseTime: int, contentSize: int, hasError: bool)

  function Init(rs: seq<Result>): seq<Result>
    requires |rs| > 0
  {
    rs[..|rs| - 1]
  }

  function Last(rs: seq<Result>): Result
    requires |rs| > 0
  {
    rs[|rs| - 1]
  }

  /** The latency of every result, in arrival order. */
  function Times(rs: seq<Result>): seq<int> {
    seq(|rs|, i requires 0 <= i < |rs| => rs[i].responseTime)
  }

  /** The error flag of every result, in arrival order. */
  function ErrorFlags(rs: seq<Result>): seq<bool> {
    seq(|rs|, i requires 0 <= i < |rs| => rs[i].hasError)
  }

  /** Results that completed without an error. */
  function SuccessCount(rs: seq<Result>): nat {
    if rs == [] then 0 else SuccessCount(Init(rs)) + (if Last(rs).hasError then 0 else 1)
  }

  /** Results that carry an error, whatever their status code. */
  function FailCount(rs: seq<Result>): nat {
    if rs == [] then 0 else FailCount(Init(rs)) + (if Last(rs).hasError then 1 else 0)
  }

  /** Bytes received, accumulated over error-free results only. */
  function Bytes(rs: seq<Result>): int {
    if rs == [] then 0
    else Bytes(Init(rs)) + (if Last(rs).hasError then 0 else Last(rs).contentSize)
  }

  /** The sum of all latencies, failed requests included. */
  function TimeSum(rs: seq<Result>): int {
    if rs == [] then 0 else TimeSum(Init(rs)) + Last(rs).responseTime
  }

  /** One step of the running minimum, where 0 means "not set yet". */
  function MinStep(min: int, t: int): int {
    if min == 0 || t < min then t else min
  }

  /** One step of the running maximum, which starts at 0. */
  function MaxStep(max: int, t: int): int {
    if t > max then t else max
  }

  function SentinelMin(rs: seq<Result>): int {
    if rs == [] then 0 else MinStep(SentinelMin(Init(rs)), Last(rs).responseTime)
  }

  function MaxTime(rs: seq<Result>): int {
    if rs == [] then 0 else MaxStep(MaxTime(Init(rs)), Last(rs).responseTime)
  }

  /** Go's integer division, which truncates toward zero. */
  function TruncDiv(a: int, n: int): (q: int)
    requires n > 0
    ensures 0 <= a ==> 0 <= a - n * q < n
    ensures a < 0 ==> -n < a - n * q <= 0
  {
    if a >= 0 then a / n else -((-a) / n)
  }

  ghost predicate AllPositive(rs: seq<Result>) {
    forall i :: 0 <= i < |rs| ==> rs[i].responseTime > 0
  }

  lemma InitTimes(rs: seq<Result>)
    requires |rs| > 0
    ensures Times(rs) == Times(Init(rs)) + [Last(rs).responseTime]
  {
    assert Times(rs) == Times(Init(rs)) + [Last(rs).responseTime];
  }

  /** Absorbing one more result updates each aggregate by that result alone. */
  lemma AppendOne(rs: seq<Result>, r: Result)
    ensures var rs' := rs + [r];
      && SuccessCount(rs') == SuccessCount(rs) + (if r.hasError then 0 else 1)
      && FailCount(rs') == FailCount(rs) + (if r.hasError then 1 else 0)
      && Bytes(rs') == Bytes(rs) + (if r.hasError then 0 else r.contentSize)
      && TimeSum(rs') == TimeSum(rs) + r.responseTime
      && SentinelMin(rs') == MinStep(SentinelMin(rs), r.responseTime)
      && MaxTime(rs') == MaxStep(MaxTime(rs), r.responseTime)
      && Times(rs') == Times(rs) + [r.responseTime]
  {
    var rs' := rs + [r];
    assert Init(rs') == rs && Last(rs') == r;
    InitTimes(rs');
  }

  /** Every result is either a success or a failure, never both. */
  lemma {:induction false} CountsAddUp(rs: seq<Result>)
    ensures SuccessCount(rs) + FailCount(rs) == |rs|
  {
    if rs != [] {
      CountsAddUp(Init(rs));
    }
  }

  /** The tallies of two lists laid end to end are the sums of their tallies. */
  lemma {:induction false} CountsConcat(a: seq<Result>, b: seq<Result>)
    ensures SuccessCount(a + b) == SuccessCount(a) + SuccessCount(b)
    ensures FailCount(a + b) == FailCount(a) + FailCount(b)
    ensures Bytes(a + b) == Bytes(a) + Bytes(b)
  {
    if b == [] {
      assert a + b == a;
    } else {
      assert Init(a + b) == a + Init(b) && Last(a + b) == Last(b);
      CountsConcat(a, Init(b));
    }
  }

  /** The failure count is the number of results whose error is present, and
      the success count the number without one; the status code plays no part. */
  lemma {:induction false} FailuresAreErrors(rs: seq<Result>)
    ensures FailCount(rs) == multiset(ErrorFlags(rs))[true]
    ensures SuccessCount(rs) == multiset(ErrorFlags(rs))[false]
  {
    if rs != [] {
      FailuresAreErrors(Init(rs));
      assert ErrorFlags(rs) == ErrorFlags(Init(rs)) + [Last(rs).hasError];
    }
  }

  /** The error-free results, in arrival order. */
  function Successes(rs: seq<Result>): seq<Result> {
    if rs == [] then []
    else Successes(Init(rs)) + (if Last(rs).hasError then [] else [Last(rs)])
  }

  /** The plain sum of the content sizes of a list of results. */
  function SumSizes(rs: seq<Result>): int {
    if rs == [] then 0 else rs[0].contentSize + SumSizes(rs[1..])
  }

  lemma {:induction false} SumSizesAppend(a: seq<Result>, b: seq<Result>)
    ensures SumSizes(a + b) == SumSizes(a) + SumSizes(b)
  {
    if a == [] {
      assert a + b == b;
    } else {
      assert (a + b)[1..] == a[1..] + b;
      SumSizesAppend(a[1..], b);
    }
  }

  /** The byte total is the sum of sizes over exactly the error-free results:
      failed results add nothing. */
  lemma {:induction false} BytesOverSuccesses(rs: seq<Result>)
    ensures Bytes(rs) == SumSizes(Successes(rs))
    ensures forall i :: 0 <= i < |Successes(rs)| ==> !Successes(rs)[i].hasError
    ensures |Successes(rs)| == SuccessCount(rs)
  {
    if rs != [] {
      BytesOverSuccesses(Init(rs));
      var tail := if Last(rs).hasError then [] else [Last(rs)];
      SumSizesAppend(Successes(Init(rs)), tail);
      assert SumSizes(tail) == if Last(rs).hasError then 0 else Last(rs).contentSize by {
        if !Last(rs).hasError {
          assert tail[1..] == [];
        }
      }
    }
  }

  /** With all latencies positive, the sentinel minimum and the running
      maximum are observed latencies and bound every other one. */
  lemma {:induction false} MinMaxBounds(rs: seq<Result>)
    requires |rs| > 0 && AllPositive(rs)
    ensures SentinelMin(rs) in Times(rs) && MaxTime(rs) in Times(rs)
    ensures forall i :: 0 <= i < |rs| ==> SentinelMin(rs) <= rs[i].responseTime <= MaxTime(rs)
  {
    InitTimes(rs);
    if |rs| > 1 {
      MinMaxBounds(Init(rs));
    }
    forall i | 0 <= i < |rs|
      ensures SentinelMin(rs) <= rs[i].responseTime <= MaxTime(rs)
    {
      if i < |rs| - 1 {
        assert rs[i] == Init(rs)[i];
      }
    }
  }

  lemma {:induction false} TimeSumBounds(rs: seq<Result>, lo: int, hi: int)
    requires forall i :: 0 <= i < |rs| ==> lo <= rs[i].responseTime <= hi
    ensures |rs| * lo <= TimeSum(rs) <= |rs| * hi
  {
    if rs != [] {
      var n := |rs|;
      assert forall i :: 0 <= i < n - 1 ==> Init(rs)[i] == rs[i];
      TimeSumBounds(Init(rs), lo, hi);
      assert (n - 1) * lo + lo == n * lo;
      assert (n - 1) * hi + hi == n * hi;
    }
  }

  lemma MulMonotone(n: int, a: int, b: int)
    requires n >= 0 && a <= b
    ensures n * a <= n * b
  {
    assert n * b - n * a == n * (b - a);
  }

  lemma MulCancel(n: int, a: int, b: int)
    requires n > 0 && n * a < n * b
    ensures a < b
  {
    if b <= a {
      MulMonotone(n, b, a);
    }
  }

  /** A quotient of a non-negative sum by its count stays between bounds the
      count times which bound the sum. */
  lemma QuotientBetween(s: int, n: int, lo: int, hi: int)
    requires n > 0 && 0 <= s && n * lo <= s <= n * hi
    ensures lo <= TruncDiv(s, n) <= hi
  {
    var q := TruncDiv(s, n);
    assert n * (q + 1) == n * q + n;
    assert n * (hi + 1) == n * hi + n;
    MulCancel(n, lo, q + 1);
    MulCancel(n, q, hi + 1);
  }

  /** The average latency, by truncating division, lies between the minimum
      and the maximum when every latency is positive. */
  lemma AvgBetweenMinMax(rs: seq<Result>)
    requires |rs| > 0 && AllPositive(rs)
    ensures SentinelMin(rs) <= TruncDiv(TimeSum(rs), |rs|) <= MaxTime(rs)
  {
    MinMaxBounds(rs);
    TimeSumBounds(rs, SentinelMin(rs), MaxTime(rs));
    assert SentinelMin(rs) > 0 by {
      var k :| 0 <= k < |rs| && Times(rs)[k] == SentinelMin(rs);
    }
    assert |rs| * SentinelMin(rs) >= 0;
    QuotientBetween(TimeSum(rs), |rs|, SentinelMin(rs), MaxTime(rs));
  }

  /** A zero latency clears the "not set" sentinel, so the next latency
      becomes the minimum even when it is larger than earlier ones; the
      reported minimum then exceeds the average. */
  lemma ZeroLatencyResetsMin()
    ensures var rs := [Result(200, 5, 0, false), Result(200, 0, 0, false), Result(200, 7, 0, false)];
      SentinelMin(rs) == 7 && TruncDiv(TimeSum(rs), |rs|) == 4
  {
    var rs := [Result(200, 5, 0, false), Result(200, 0, 0, false), Result(200, 7, 0, false)];
    assert Init(rs) == rs[..2];
    assert Init(rs[..2]) == rs[..1];
    assert Init(rs[..1]) == [];
  }
}
