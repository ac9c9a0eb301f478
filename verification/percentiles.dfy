/**
 * Sorting the latencies and picking percentiles from the sorted list by the
 * floor index `len*p/100`.
 */
module Percentiles {

  ghost predicate Sorted(s: seq<int>) {
    forall i, j :: 0 <= i < j < |s| ==> s[i] <= s[j]
  }

  /** Inserts `x` into an ascending list, keeping it ascending. */
  function Insert(x: int, s: seq<int>): (r: seq<int>)
    requires Sorted(s)
    ensures |r| == |s| + 1 && (r[0] == x || (|s| > 0 && r[0] == s[0]))
    ensures Sorted(r) && multiset(r) == multiset(s) + multiset{x}
  {
    if s == [] || x <= s[0] then [x] + s
    else
      var rest := Insert(x, s[1..]);
      InsertStep(x, s, rest);
      [s[0]] + rest
  }

  /** Putting the head of `s` back in front of `x` inserted into its tail. */
  lemma InsertStep(x: int, s: seq<int>, rest: seq<int>)
    requires Sorted(s) && s != [] && s[0] < x
    requires Sorted(rest) && |rest| == |s| && multiset(rest) == multiset(s[1..]) + multiset{x}
    requires rest[0] == x || (|s| > 1 && rest[0] == s[1])
    ensures Sorted([s[0]] + rest) && multiset([s[0]] + rest) == multiset(s) + multiset{x}
  {
    assert s == [s[0]] + s[1..];
  }

  /** The ascending rearrangement of a list of latencies: the value the
      in-place sort leaves behind. */
  function SortAscending(s: seq<int>): (r: seq<int>)
    ensures |r| == |s| && Sorted(r) && multiset(r) == multiset(s)
  {
    if s == [] then []
    else
      assert s == [s[0]] + s[1..];
      Insert(s[0], SortAscending(s[1..]))
  }

  lemma SortedHead(a: seq<int>, x: int)
    requires Sorted(a) && x in a
    ensures a[0] <= x
  {
    var j :| 0 <= j < |a| && a[j] == x;
  }

  lemma SortedTail(a: seq<int>)
    requires Sorted(a) && |a| > 0
    ensures Sorted(a[1..]) && multiset(a[1..]) == multiset(a) - multiset{a[0]}
  {
    assert a == [a[0]] + a[1..];
    assert forall i :: 0 <= i < |a| - 1 ==> a[1..][i] == a[i + 1];
  }

  /** Two ascending lists with the same elements start with the same one. */
  lemma SameHead(a: seq<int>, b: seq<int>)
    requires Sorted(a) && Sorted(b) && multiset(a) == multiset(b) && a != []
    ensures b != [] && a[0] == b[0]
  {
    assert a[0] in multiset(a);
    assert a[0] in b;
    assert b[0] in multiset(a);
    SortedHead(b, a[0]);
    SortedHead(a, b[0]);
  }

  /** Two ascending lists with the same elements are equal, so "sorted and a
      permutation" determines the sort's output. */
  lemma {:induction false} SortedUnique(a: seq<int>, b: seq<int>)
    requires Sorted(a) && Sorted(b) && multiset(a) == multiset(b)
    ensures a == b
  {
    if a == [] {
      assert |b| == |multiset(b)| == 0;
    } else {
      SameHead(a, b);
      SortedTail(a);
      SortedTail(b);
      SortedUnique(a[1..], b[1..]);
      assert a == [a[0]] + a[1..];
      assert b == [b[0]] + b[1..];
    }
  }

  ghost predicate SortedPrefix(a: array<int>, n: int)
    reads a
  {
    forall k, l :: 0 <= k < l < n && l < a.Length ==> a[k] <= a[l]
  }

  /** Exchanges two adjacent latencies inside the first `n`, which are then
      rearranged among themselves; nothing else moves. */
  method SwapDown(a: array<int>, j: int, n: int)
    requires 0 < j < n <= a.Length
    modifies a
    ensures a[j - 1] == old(a[j]) && a[j] == old(a[j - 1])
    ensures forall k :: 0 <= k < a.Length && k != j - 1 && k != j ==> a[k] == old(a[k])
    ensures multiset(a[..n]) == multiset(old(a[..n]))
  {
    ghost var pre := a[..n];
    a[j - 1], a[j] := a[j], a[j - 1];
    assert a[..n] == pre[..j - 1] + [pre[j], pre[j - 1]] + pre[j + 1..];
    SwapPerm(pre, j);
  }

  /** Exchanging two neighbours rearranges a list. */
  lemma SwapPerm(s: seq<int>, j: int)
    requires 0 < j < |s|
    ensures multiset(s[..j - 1] + [s[j], s[j - 1]] + s[j + 1..]) == multiset(s)
  {
    assert s == s[..j - 1] + [s[j - 1], s[j]] + s[j + 1..];
  }

  /** Rearranging a prefix and keeping the rest rearranges the whole. */
  lemma PrefixPerm(x: seq<int>, y: seq<int>, n: int)
    requires 0 <= n <= |x| == |y|
    requires multiset(x[..n]) == multiset(y[..n]) && x[n..] == y[n..]
    ensures multiset(x) == multiset(y)
  {
    assert x == x[..n] + x[n..];
    assert y == y[..n] + y[n..];
  }

  /** Moves `a[i]` down into the ascending prefix `a[..i]`: the first `i + 1`
      elements are rearranged among themselves and the rest stay put. */
  method SiftDown(a: array<int>, i: int)
    requires 0 <= i < a.Length && SortedPrefix(a, i)
    modifies a
    ensures SortedPrefix(a, i + 1)
    ensures multiset(a[..i + 1]) == multiset(old(a[..i + 1]))
    ensures a[i + 1..] == old(a[i + 1..])
  {
    var j := i;
    while j > 0 && a[j - 1] > a[j]
      invariant 0 <= j <= i
      invariant forall k, l :: 0 <= k < l <= i && l != j ==> a[k] <= a[l]
      invariant multiset(a[..i + 1]) == multiset(old(a[..i + 1]))
      invariant forall k :: i < k < a.Length ==> a[k] == old(a[k])
    {
      SwapDown(a, j, i + 1);
      j := j - 1;
    }
    assert a[i + 1..] == old(a[i + 1..]);
  }

  /** Sorts the latencies in place, ascending, as `sort.Slice` with a
      less-than comparison does (insertion sort; the order among equal
      latencies is not observable in a list of ints). */
  method SortInPlace(a: array<int>)
    modifies a
    ensures a[..] == SortAscending(old(a[..]))
  {
    var i := 0;
    while i < a.Length
      invariant 0 <= i <= a.Length
      invariant SortedPrefix(a, i)
      invariant multiset(a[..]) == multiset(old(a[..]))
    {
      ghost var before := a[..];
      SiftDown(a, i);
      PrefixPerm(a[..], before, i + 1);
      i := i + 1;
    }
    assert Sorted(a[..]);
    SortedUnique(a[..], SortAscending(old(a[..])));
  }

  /** The index the source reads the p-th percentile from. */
  function PercentileIndex(n: int, p: int): (k: int)
    requires n > 0 && 0 <= p < 100
    ensures 0 <= k < n
  {
    n * p / 100
  }

  /** The four reported percentiles of an ascending, non-empty list. */
  function PercentileMap(sorted: seq<int>): map<int, int>
    requires |sorted| > 0
  {
    var n := |sorted|;
    map[50 := sorted[PercentileIndex(n, 50)], 90 := sorted[PercentileIndex(n, 90)],
        95 := sorted[PercentileIndex(n, 95)], 99 := sorted[PercentileIndex(n, 99)]]
  }

  /** The nearest-rank rule's 0-based index, `ceil(n*p/100) - 1`. */
  function NearestRankIndex(n: int, p: int): int
    requires n > 0 && 0 < p < 100
  {
    (n * p + 99) / 100 - 1
  }

  /** The floor index is one above the nearest-rank index exactly when `n*p`
      is a multiple of 100, and equal to it otherwise. */
  lemma FloorVersusNearestRank(n: int, p: int)
    requires n > 0 && 0 < p < 100
    ensures n * p % 100 == 0 ==> PercentileIndex(n, p) == NearestRankIndex(n, p) + 1
    ensures n * p % 100 != 0 ==> PercentileIndex(n, p) == NearestRankIndex(n, p)
  {
  }

  /** With 100 requests every reported percentile is one sample above its
      nearest-rank counterpart. */
  lemma HundredRequests()
    ensures forall p :: p in {50, 90, 95, 99} ==> PercentileIndex(100, p) == NearestRankIndex(100, p) + 1 == p
  {
  }

  /** For the fixed percentiles the floor indices grow with p. */
  lemma IndicesAscend(n: int)
    requires n > 0
    ensures PercentileIndex(n, 50) <= PercentileIndex(n, 90) <= PercentileIndex(n, 95) <= PercentileIndex(n, 99)
  {
  }

  /** Reading the percentiles from a sorted list of latencies gives the four
      keys, in ascending order of value, each an observed latency read
      at the floor index of its percentile. */
  lemma PercentilesOrdered(times: seq<int>)
    requires |times| > 0
    ensures var pm := PercentileMap(SortAscending(times));
      && pm.Keys == {50, 90, 95, 99}
      && pm[50] <= pm[90] <= pm[95] <= pm[99]
      && (forall p :: p in pm ==> pm[p] in times)
  {
    var sorted := SortAscending(times);
    assert |sorted| == |times| by {
      assert |sorted| == |multiset(sorted)|;
    }
    PercentilesOfSorted(sorted);
    var pm := PercentileMap(sorted);
    forall p | p in pm ensures pm[p] in times {
      assert pm[p] in sorted;
      assert pm[p] in multiset(sorted);
    }
  }

  lemma PercentilesOfSorted(sorted: seq<int>)
    requires |sorted| > 0 && Sorted(sorted)
    ensures var pm := PercentileMap(sorted);
      && pm.Keys == {50, 90, 95, 99}
      && pm[50] <= pm[90] <= pm[95] <= pm[99]
      && (forall p :: p in pm ==> pm[p] in sorted)
  {
    IndicesAscend(|sorted|);
  }
}
