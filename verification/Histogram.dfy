/** `latencyHistogram` (cmd/gonvex-load/metrics.go): counts per bucket instead of the values. */
module Histogram {
  import opened Numbers
  import opened Percentiles

  const MILLISECOND := 1_000_000

  /** The default bucket bounds, in nanoseconds. */
  const DEFAULT_BOUNDS: seq<int> := [
    1 * MILLISECOND, 2 * MILLISECOND, 5 * MILLISECOND, 10 * MILLISECOND, 20 * MILLISECOND, 50 * MILLISECOND,
    100 * MILLISECOND, 200 * MILLISECOND, 500 * MILLISECOND, 1000 * MILLISECOND, 2000 * MILLISECOND,
    5000 * MILLISECOND, 10_000 * MILLISECOND, 30_000 * MILLISECOND, 60_000 * MILLISECOND, 120_000 * MILLISECOND]

  ghost predicate Increasing(bounds: seq<int>) {
    forall i, j :: 0 <= i < j < |bounds| ==> bounds[i] < bounds[j]
  }

  function PrefixSum(counts: seq<nat>, n: nat): nat
    requires n <= |counts|
  {
    if n == 0 then 0 else PrefixSum(counts, n - 1) + counts[n - 1]
  }

  lemma {:induction false} PrefixSumAdd(counts: seq<nat>, i: nat, n: nat, k: nat)
    requires i < |counts| && k <= |counts|
    ensures PrefixSum(counts[i := counts[i] + n], k) == PrefixSum(counts, k) + if i < k then n else 0
    decreases k
  {
    if k > 0 {
      PrefixSumAdd(counts, i, n, k - 1);
    }
  }

  /** `values` with `n` more observations of `v`. */
  function Repeated(values: seq<int>, v: int, n: nat): (r: seq<int>)
    ensures |r| == |values| + n
  {
    if n == 0 then values else Repeated(values, v, n - 1) + [v]
  }

  lemma {:induction false} RepeatedCount(values: seq<int>, v: int, n: nat, b: int)
    ensures CountLE(Repeated(values, v, n), b) == CountLE(values, b) + if v <= b then n else 0
  {
    if n > 0 {
      RepeatedCount(values, v, n - 1, b);
      CountLEAppend(Repeated(values, v, n - 1), [v], b);
      assert [v][1..] == [];
    }
  }

  lemma {:induction false} RepeatedSum(values: seq<int>, v: int, n: nat)
    ensures Sum(Repeated(values, v, n)) == Sum(values) + v * n
  {
    if n > 0 {
      RepeatedSum(values, v, n - 1);
      CountLEAppend(Repeated(values, v, n - 1), [v], 0);
      assert [v][1..] == [];
      assert v * n == v * (n - 1) + v;
    }
  }

  lemma {:induction false} RepeatedMembers(values: seq<int>, v: int, n: nat)
    ensures forall x :: x in Repeated(values, v, n) <==> x in values || (n > 0 && x == v)
  {
    if n > 0 {
      RepeatedMembers(values, v, n - 1);
    }
  }

  /** The least bound at or above `v`, or `max` when `v` lies above them all. */
  function RoundUp(bounds: seq<int>, v: int, max: int): int {
    if bounds == [] then max
    else if v <= bounds[0] then bounds[0]
    else RoundUp(bounds[1..], v, max)
  }

  lemma {:induction false} RoundUpAt(bounds: seq<int>, v: int, max: int, i: nat)
    requires i <= |bounds|
    requires forall j :: 0 <= j < i ==> v > bounds[j]
    requires i < |bounds| ==> v <= bounds[i]
    ensures RoundUp(bounds, v, max) == if i < |bounds| then bounds[i] else max
  {
    if i > 0 {
      assert forall j :: 0 <= j < i - 1 ==> bounds[1..][j] == bounds[j + 1];
      RoundUpAt(bounds[1..], v, max, i - 1);
    }
  }

  function Clamp(ratio: real): (r: real)
    ensures 0.0 <= r <= 1.0
  {
    if ratio < 0.0 then 0.0 else if ratio > 1.0 then 1.0 else ratio
  }

  /** The rank asked for by a ratio, which may lie outside 0 to 1, among `n` values. */
  method TargetRank(n: nat, ratio: real) returns (target: nat)
    requires n > 0
    ensures target == Rank(n, Clamp(ratio))
  {
    var clamped := ratio;
    if clamped < 0.0 {
      clamped := 0.0;
    }
    if clamped > 1.0 {
      clamped := 1.0;
    }
    var rank := Ceil(n as real * clamped);
    if rank <= 0 {
      rank := 1;
    }
    target := rank;
  }

  class LatencyHistogram {
    const bounds: seq<int>
    const counts: array<nat>
    var count: nat
    var total: int
    var max: int
    /** Every observation so far, negative ones as zero. */
    ghost var values: seq<int>

    ghost predicate Valid()
      reads this, counts
    {
      && Increasing(bounds)
      && counts.Length == |bounds| + 1
      && (forall i :: 0 <= i < |bounds| ==> PrefixSum(counts[..], i + 1) == CountLE(values, bounds[i]))
      && PrefixSum(counts[..], |bounds| + 1) == |values| == count
      && total == Sum(values)
      && (forall v :: v in values ==> 0 <= v <= max)
      && (if values == [] then max == 0 else max in values)
    }

    constructor ()
      ensures Valid() && values == [] && fresh(counts) && bounds == DEFAULT_BOUNDS
    {
      bounds := DEFAULT_BOUNDS;
      counts := new nat[|DEFAULT_BOUNDS| + 1](_ => 0);
      count, total, max, values := 0, 0, 0, [];
      new;
      forall k | 0 <= k <= |bounds| + 1 ensures PrefixSum(counts[..], k) == 0 {
        ZeroSum(counts[..], k);
      }
    }

    method ObserveN(value: int, n: nat)
      requires Valid()
      modifies this, counts
      ensures Valid()
      ensures values == Repeated(old(values), if value < 0 then 0 else value, n)
    {
      if n == 0 {
        return;
      }
      var v := if value < 0 then 0 else value;
      var index := BucketOf(v);
      ghost var before := counts[..];
      counts[index] := counts[index] + n;
      count := count + n;
      total := total + v * n;
      if v > max {
        max := v;
      }
      assert counts[..] == before[index := before[index] + n];
      values := Repeated(values, v, n);
      RepeatedMembers(old(values), v, n);
      RepeatedSum(old(values), v, n);
      BucketsAfter(bounds, before, old(values), index, v, n);
      if old(values) != [] && v <= old(max) {
        assert max in old(values);
      }
    }

    method BucketOf(v: int) returns (index: nat)
      requires Increasing(bounds)
      ensures index <= |bounds|
      ensures forall j :: 0 <= j < |bounds| ==> (v <= bounds[j] <==> index <= j)
    {
      for candidate := 0 to |bounds|
        invariant forall j :: 0 <= j < candidate ==> v > bounds[j]
      {
        if v <= bounds[candidate] {
          return candidate;
        }
      }
      return |bounds|;
    }

    method Max() returns (r: int)
      requires Valid()
      ensures r == max
    {
      r := max;
    }

    /** The scan with a running sum: the bucket of the value of rank `target`. */
    method Scan(target: nat) returns (r: int)
      requires Valid() && 1 <= target <= count
      ensures r == RoundUp(bounds, SortedInts(values)[target - 1], max)
    {
      ghost var exact := SortedInts(values)[target - 1];
      var seen := 0;
      for index := 0 to counts.Length
        invariant seen == PrefixSum(counts[..], index) < target
        invariant forall j :: 0 <= j < index && j < |bounds| ==> exact > bounds[j]
      {
        seen := seen + counts[index];
        if index < |bounds| {
          RankByCounting(values, bounds[index], target);
        }
        if seen < target {
          continue;
        }
        RoundUpAt(bounds, exact, max, index);
        if index < |bounds| {
          return bounds[index];
        }
        return max;
      }
      r := max;
      assert false;
    }

    /** The reported percentile is the bucket rounding of the exact nearest-rank percentile of the observations. */
    method Percentile(ratio: real) returns (r: int)
      requires Valid()
      ensures r == if values == [] then 0 else RoundUp(bounds, NearestRank(values, Clamp(ratio)), max)
      ensures values != [] ==>
                exists e :: IsPercentile(values, if ratio > 1.0 then 1.0 else ratio, e) && IsRounding(bounds, e, max, r)
    {
      if count == 0 {
        return 0;
      }
      var target := TargetRank(count, ratio);
      r := Scan(target);
      PercentileMeaning(bounds, values, max, ratio);
    }

    method Average() returns (r: int)
      requires Valid()
      ensures values == [] ==> r == 0
      ensures values != [] ==> r * |values| <= Sum(values) < (r + 1) * |values|
    {
      if count == 0 {
        return 0;
      }
      r := total / count;
    }
  }

  /** The running sums of the buckets keep counting the values up to each bound. */
  lemma BucketsAfter(bounds: seq<int>, counts: seq<nat>, values: seq<int>, index: nat, v: int, n: nat)
    requires |counts| == |bounds| + 1 && index <= |bounds|
    requires forall j :: 0 <= j < |bounds| ==> (v <= bounds[j] <==> index <= j)
    requires forall i :: 0 <= i < |bounds| ==> PrefixSum(counts, i + 1) == CountLE(values, bounds[i])
    ensures var after := counts[index := counts[index] + n];
            && (forall i :: 0 <= i < |bounds| ==> PrefixSum(after, i + 1) == CountLE(Repeated(values, v, n), bounds[i]))
            && PrefixSum(after, |bounds| + 1) == PrefixSum(counts, |bounds| + 1) + n
  {
    var after := counts[index := counts[index] + n];
    PrefixSumAdd(counts, index, n, |bounds| + 1);
    forall i | 0 <= i < |bounds| ensures PrefixSum(after, i + 1) == CountLE(Repeated(values, v, n), bounds[i]) {
      RepeatedCount(values, v, n, bounds[i]);
      PrefixSumAdd(counts, index, n, i + 1);
    }
  }

  lemma {:induction false} ZeroSum(counts: seq<nat>, k: nat)
    requires k <= |counts| && forall i :: 0 <= i < |counts| ==> counts[i] == 0
    ensures PrefixSum(counts, k) == 0
  {
    if k > 0 {
      ZeroSum(counts, k - 1);
    }
  }

  // ---------------------------------------------------------------- what rounding up means

  /** The least bound at or above `v`, or `max` when there is none. */
  ghost predicate IsRounding(bounds: seq<int>, v: int, max: int, r: int) {
    if exists b :: b in bounds && v <= b
    then r in bounds && v <= r && forall b :: b in bounds && v <= b ==> r <= b
    else r == max
  }

  lemma {:induction false} RoundUpMeaning(bounds: seq<int>, v: int, max: int)
    requires Increasing(bounds)
    ensures IsRounding(bounds, v, max, RoundUp(bounds, v, max))
  {
    if bounds != [] {
      assert bounds == [bounds[0]] + bounds[1..];
      if v > bounds[0] {
        RoundUpMeaning(bounds[1..], v, max);
      } else {
        assert bounds[0] in bounds;
      }
    }
  }

  /** In terms of the observations alone: the reported percentile rounds the one that counting determines. */
  lemma PercentileMeaning(bounds: seq<int>, values: seq<int>, max: int, ratio: real)
    requires Increasing(bounds) && values != []
    ensures var e := NearestRank(values, Clamp(ratio));
            && IsPercentile(values, if ratio > 1.0 then 1.0 else ratio, e)
            && IsRounding(bounds, e, max, RoundUp(bounds, e, max))
  {
    NearestRankMeaning(values, Clamp(ratio));
    RoundUpMeaning(bounds, NearestRank(values, Clamp(ratio)), max);
  }

  /** For any observations: the reported percentile is never below the exact one and is the least bound at
      or above it, or the overall maximum above the last bound. */
  lemma PercentileNeverUnderReports(bounds: seq<int>, values: seq<int>, max: int, ratio: real)
    requires Increasing(bounds) && values != [] && forall v :: v in values ==> v <= max
    ensures var e := NearestRank(values, Clamp(ratio));
            var r := RoundUp(bounds, e, max);
            && e in values && r >= e
            && (r in bounds || r == max)
            && forall b :: b in bounds && b >= e ==> r <= b
  {
    NearestRankMeaning(values, Clamp(ratio));
    RoundUpMeaning(bounds, NearestRank(values, Clamp(ratio)), max);
  }

  /** The reported percentile is monotone in the ratio. */
  lemma PercentileMonotone(bounds: seq<int>, values: seq<int>, max: int, p: real, q: real)
    requires Increasing(bounds) && values != [] && p <= q && forall v :: v in values ==> v <= max
    ensures RoundUp(bounds, NearestRank(values, Clamp(p)), max) <= RoundUp(bounds, NearestRank(values, Clamp(q)), max)
  {
    NearestRankMonotone(values, Clamp(p), Clamp(q));
    NearestRankMeaning(values, Clamp(q));
    RoundUpOrder(bounds, NearestRank(values, Clamp(p)), NearestRank(values, Clamp(q)), max);
  }

  lemma {:induction false} RoundUpOrder(bounds: seq<int>, v: int, w: int, max: int)
    requires Increasing(bounds) && v <= w <= max
    ensures RoundUp(bounds, v, max) <= RoundUp(bounds, w, max)
  {
    if bounds != [] {
      if v <= bounds[0] < w {
        RoundUpMeaning(bounds[1..], w, max);
      } else if w > bounds[0] {
        RoundUpOrder(bounds[1..], v, w, max);
      }
    }
  }
}
