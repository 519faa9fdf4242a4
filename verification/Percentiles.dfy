/** Latency percentiles of one group of requests. */
module Percentiles {
  ghost predicate Ascending(s: seq<int>) {
    forall i, j :: 0 <= i <= j < |s| ==> s[i] <= s[j]
  }

  function Insert(x: int, s: seq<int>): seq<int> {
    if s == [] || x <= s[0] then [x] + s else [s[0]] + Insert(x, s[1..])
  }

  /** sort.Ints */
  function Sort(s: seq<int>): seq<int> {
    if s == [] then [] else Insert(s[0], Sort(s[1..]))
  }

  lemma {:induction false} InsertAscending(x: int, s: seq<int>)
    requires Ascending(s)
    ensures Ascending(Insert(x, s)) && |Insert(x, s)| == |s| + 1
    ensures s != [] && x > s[0] ==> Insert(x, s)[0] == s[0]
  {
    if s != [] && x > s[0] {
      InsertAscending(x, s[1..]);
      var r := Insert(x, s[1..]);
      assert r[0] >= s[0] by {
        if |s| > 1 && x > s[1] { assert r[0] == s[1]; }
      }
    }
  }

  lemma {:induction false} SortAscending(s: seq<int>)
    ensures Ascending(Sort(s)) && |Sort(s)| == |s|
  {
    hide Insert;
    if s != [] {
      SortAscending(s[1..]);
      InsertAscending(s[0], Sort(s[1..]));
    }
  }

  function CountIf(s: seq<int>, p: int -> bool): nat {
    if s == [] then 0 else (if p(s[0]) then 1 else 0) + CountIf(s[1..], p)
  }

  lemma {:induction false} InsertCount(x: int, s: seq<int>, p: int -> bool)
    ensures CountIf(Insert(x, s), p) == CountIf(s, p) + if p(x) then 1 else 0
  {
    if s == [] || x <= s[0] {
      assert ([x] + s)[1..] == s;
    } else {
      InsertCount(x, s[1..], p);
      assert ([s[0]] + Insert(x, s[1..]))[1..] == Insert(x, s[1..]);
    }
  }

  /** Sorting is a permutation: it keeps how many elements have any property. */
  lemma {:induction false} SortCount(s: seq<int>, p: int -> bool)
    ensures CountIf(Sort(s), p) == CountIf(s, p)
  {
    hide Insert;
    if s != [] {
      SortCount(s[1..], p);
      InsertCount(s[0], Sort(s[1..]), p);
    }
  }

  lemma {:induction false} CountBounds(s: seq<int>, p: int -> bool, lo: nat, hi: nat)
    requires lo <= hi <= |s|
    requires forall i :: 0 <= i < lo ==> p(s[i])
    requires forall i :: hi <= i < |s| ==> !p(s[i])
    ensures lo <= CountIf(s, p) <= hi
  {
    if s != [] {
      CountBounds(s[1..], p, if lo > 0 then lo - 1 else 0, if hi > 0 then hi - 1 else 0);
    }
  }

  function P50(latencies: seq<int>): int {
    SortAscending(latencies);
    if latencies == [] then 0 else Sort(latencies)[|latencies| * 50 / 100]
  }

  function Index95(n: nat): nat
    requires n > 0
    ensures Index95(n) < n
  {
    n * 95 / 100
  }

  function P95(latencies: seq<int>): int {
    SortAscending(latencies);
    if latencies == [] then 0 else Sort(latencies)[Index95(|latencies|)]
  }

  method Compute(latencies: seq<int>) returns (p50: int, p95: int)
    ensures p50 == P50(latencies) && p95 == P95(latencies)
  {
    if latencies == [] {
      return 0, 0;
    }
    SortAscending(latencies);
    var sorted := Sort(latencies);
    p50 := sorted[|sorted| * 50 / 100];
    var p95idx := |sorted| * 95 / 100;
    if p95idx >= |sorted| {
      p95idx := |sorted| - 1;
    }
    p95 := sorted[p95idx];
  }

  /** `v` has the rank `k` in `s`: at most `k` elements are smaller, and more than `k` are not larger. */
  ghost predicate HasRank(s: seq<int>, v: int, k: nat) {
    CountIf(s, y => y < v) <= k < CountIf(s, y => y <= v)
  }

  lemma RankOfSorted(s: seq<int>, k: nat)
    requires k < |s|
    ensures |Sort(s)| == |s| && HasRank(s, Sort(s)[k], k)
  {
    hide Sort;
    SortAscending(s);
    var t := Sort(s);
    var v := t[k];
    var less, notMore := (y: int) => y < v, (y: int) => y <= v;
    CountBounds(t, less, 0, k);
    CountBounds(t, notMore, k + 1, |t|);
    SortCount(s, less);
    SortCount(s, notMore);
    assert CountIf(s, y => y < v) == CountIf(s, less) && CountIf(s, y => y <= v) == CountIf(s, notMore) by {
      CountSame(s, y => y < v, less);
      CountSame(s, y => y <= v, notMore);
    }
  }

  lemma {:induction false} CountSame(s: seq<int>, p: int -> bool, q: int -> bool)
    requires forall y :: p(y) == q(y)
    ensures CountIf(s, p) == CountIf(s, q)
  {
    if s != [] { CountSame(s[1..], p, q); }
  }

  /** The percentiles have the ranks they are named after. */
  lemma PercentileRanks(latencies: seq<int>)
    requires latencies != []
    ensures HasRank(latencies, P50(latencies), |latencies| / 2)
    ensures HasRank(latencies, P95(latencies), |latencies| * 95 / 100)
  {
    hide Sort, HasRank;
    assert |latencies| * 50 / 100 == |latencies| / 2;
    RankOfSorted(latencies, |latencies| / 2);
    RankOfSorted(latencies, |latencies| * 95 / 100);
  }
}
