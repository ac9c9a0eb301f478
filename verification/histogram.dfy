/**
 * The status-code histogram: a map from status code to the number of
 * results that carried it. Go's `m[code]++` reads a missing key as 0, so the
 * first result with a code creates its bucket with count 1.
 */
module StatusCodes {
  import opened Results

  /** `h[c]++` on a Go map. */
  function Bump(h: map<int, int>, c: int): map<int, int> {
    h[c := (if c in h then h[c] else 0) + 1]
  }

  /** The histogram of a list of results, built one result at a time. */
  function Histogram(rs: seq<Result>): map<int, int> {
    if rs == [] then map[] else Bump(Histogram(Init(rs)), Last(rs).statusCode)
  }

  lemma HistogramAppend(rs: seq<Result>, r: Result)
    ensures Histogram(rs + [r]) == Bump(Histogram(rs), r.statusCode)
  {
    assert Init(rs + [r]) == rs && Last(rs + [r]) == r;
  }

  /** The status code of every result, in arrival order. */
  function Codes(rs: seq<Result>): seq<int> {
    seq(|rs|, i requires 0 <= i < |rs| => rs[i].statusCode)
  }

  /** The sum of the buckets named by `ks`; a code without a bucket adds 0. */
  function SumOver(h: map<int, int>, ks: seq<int>): int {
    if ks == [] then 0 else (if ks[0] in h then h[ks[0]] else 0) + SumOver(h, ks[1..])
  }

  ghost predicate NoDuplicates(ks: seq<int>) {
    forall i, j :: 0 <= i < j < |ks| ==> ks[i] != ks[j]
  }

  /** `ks` lists every bucket of `h`, each once, so summing over it adds up
      the whole histogram. */
  ghost predicate Covers(ks: seq<int>, h: map<int, int>) {
    NoDuplicates(ks) && forall c :: c in h ==> c in ks
  }

  /** Bumping changes only the bucket of the given code, by one. */
  lemma BumpOnly(h: map<int, int>, c: int)
    ensures c in Bump(h, c) && Bump(h, c)[c] == (if c in h then h[c] else 0) + 1
    ensures forall d :: d != c ==> (d in Bump(h, c) <==> d in h)
    ensures forall d :: d != c && d in h ==> Bump(h, c)[d] == h[d]
  {
  }

  lemma {:induction false} SumOverUntouched(h: map<int, int>, c: int, ks: seq<int>)
    requires c !in ks
    ensures SumOver(Bump(h, c), ks) == SumOver(h, ks)
  {
    if ks != [] {
      SumOverUntouched(h, c, ks[1..]);
    }
  }

  /** Bumping a bucket that `ks` names once raises the sum over `ks` by one. */
  lemma {:induction false} SumOverBump(h: map<int, int>, c: int, ks: seq<int>)
    requires NoDuplicates(ks) && c in ks
    ensures SumOver(Bump(h, c), ks) == SumOver(h, ks) + 1
  {
    if ks[0] == c {
      assert c !in ks[1..] by {
        forall i | 0 <= i < |ks| - 1 ensures ks[1..][i] != c {
          assert ks[1..][i] == ks[i + 1];
        }
      }
      SumOverUntouched(h, c, ks[1..]);
    } else {
      SumOverBump(h, c, ks[1..]);
    }
  }

  /** Every result lands in exactly one bucket, so the counts sum to the
      number of results. */
  lemma {:induction false} HistogramTotal(rs: seq<Result>, ks: seq<int>)
    requires Covers(ks, Histogram(rs))
    ensures SumOver(Histogram(rs), ks) == |rs|
  {
    if rs == [] {
      assert Histogram(rs) == map[];
      ZeroSum(ks);
    } else {
      var h, c := Histogram(Init(rs)), Last(rs).statusCode;
      BumpOnly(h, c);
      HistogramTotal(Init(rs), ks);
      SumOverBump(h, c, ks);
    }
  }

  lemma {:induction false} ZeroSum(ks: seq<int>)
    ensures SumOver(map[], ks) == 0
  {
    if ks != [] {
      ZeroSum(ks[1..]);
    }
  }

  /** The histogram has a bucket for exactly the codes that occur, and each
      bucket holds the number of results with that code, failed ones included. */
  lemma {:induction false} HistogramCounts(rs: seq<Result>)
    ensures forall c :: c in Histogram(rs) <==> c in Codes(rs)
    ensures forall c :: c in Histogram(rs) ==> Histogram(rs)[c] == multiset(Codes(rs))[c]
  {
    if rs != [] {
      HistogramCounts(Init(rs));
      assert Codes(rs) == Codes(Init(rs)) + [Last(rs).statusCode];
      BumpOnly(Histogram(Init(rs)), Last(rs).statusCode);
    }
  }
}
