/** Nearest-rank percentiles: the exact one of `exactHistogramReport` (cmd/gonvex-load/ttlu.go) and what
    counting can tell about it, which is all a histogram has. Durations are integers (nanoseconds), ratios are
    exact. */
module Percentiles {
  import opened Numbers
  import opened Sorting

  predicate IntLeq(a: int, b: int) { a <= b }

  lemma IntOrder()
    ensures TotalPreorder(IntLeq)
  {
  }

  function SortedInts(values: seq<int>): (r: seq<int>)
    ensures |r| == |values|
  {
    StableSort(values, IntLeq)
  }

  /** The position (from 1) of the nearest-rank percentile among `n` sorted values. */
  function Rank(n: nat, ratio: real): (r: nat)
    requires n > 0 && ratio <= 1.0
    ensures 1 <= r <= n
  {
    ScaledMonotone(n as real, ratio, 1.0);
    CeilMonotone(n as real * ratio, n as real);
    var target := Ceil(n as real * ratio);
    if target < 1 then 1 else target
  }

  function NearestRank(values: seq<int>, ratio: real): int
    requires values != [] && ratio <= 1.0
  {
    SortedInts(values)[Rank(|values|, ratio) - 1]
  }

  function Sum(values: seq<int>): int {
    if values == [] then 0 else values[0] + Sum(values[1..])
  }

  function CountLE(values: seq<int>, b: int): (n: nat)
    ensures n <= |values|
  {
    if values == [] then 0 else (if values[0] <= b then 1 else 0) + CountLE(values[1..], b)
  }

  lemma {:induction false} CountLEAppend(a: seq<int>, c: seq<int>, b: int)
    ensures CountLE(a + c, b) == CountLE(a, b) + CountLE(c, b)
    ensures Sum(a + c) == Sum(a) + Sum(c)
  {
    if a == [] {
      assert a + c == c;
    } else {
      CountLEAppend(a[1..], c, b);
      assert (a + c)[1..] == a[1..] + c;
    }
  }

  lemma CountLEMove(front: seq<int>, x: int, back: seq<int>, b: int)
    ensures CountLE(front + [x] + back, b) == (if x <= b then 1 else 0) + CountLE(front + back, b)
    ensures Sum(front + [x] + back) == x + Sum(front + back)
  {
    assert front + [x] + back == front + ([x] + back);
    assert ([x] + back)[1..] == back;
    CountLEAppend(front, back, b);
    CountLEAppend(front, [x] + back, b);
  }

  lemma {:induction false} CountLEPermuted(a: seq<int>, c: seq<int>, b: int)
    requires multiset(a) == multiset(c)
    ensures CountLE(a, b) == CountLE(c, b)
    ensures Sum(a) == Sum(c)
  {
    if a == [] {
      assert |c| == |multiset(c)| == 0;
    } else {
      var x, rest := a[0], a[1..];
      assert a == [x] + rest;
      var front, back := Locate(x, rest, c);
      CountLEPermuted(rest, front + back, b);
      CountLEMove(front, x, back, b);
    }
  }

  lemma {:induction false} CountLEAll(s: seq<int>, b: int)
    ensures (forall i :: 0 <= i < |s| ==> s[i] <= b) ==> CountLE(s, b) == |s|
    ensures (forall i :: 0 <= i < |s| ==> s[i] > b) ==> CountLE(s, b) == 0
  {
    if s != [] {
      CountLEAll(s[1..], b);
    }
  }

  lemma SortedCount(s: seq<int>, b: int, t: nat)
    requires 1 <= t <= |s| && forall i, j :: 0 <= i < j < |s| ==> s[i] <= s[j]
    ensures s[t - 1] <= b <==> CountLE(s, b) >= t
  {
    var n := if s[t - 1] <= b then t else t - 1;
    assert s == s[..n] + s[n..];
    CountLEAppend(s[..n], s[n..], b);
    if s[t - 1] <= b {
      CountLEAll(s[..n], b);
    } else {
      CountLEAll(s[n..], b);
    }
  }

  /** The `t`-th smallest value is at most `b` exactly when at least `t` values are. */
  lemma RankByCounting(values: seq<int>, b: int, t: nat)
    requires 1 <= t <= |values|
    ensures SortedInts(values)[t - 1] <= b <==> CountLE(values, b) >= t
  {
    IntOrder();
    var s := SortedInts(values);
    StableSortSorted(values, IntLeq);
    CountLEPermuted(values, s, b);
    forall i, j | 0 <= i < j < |s| ensures s[i] <= s[j] {
      assert IntLeq(s[i], s[j]);
    }
    SortedCount(s, b, t);
  }

  /** A value that the wanted share of the values reach up to, and no smaller number; with no share asked for, the
      least value. */
  ghost predicate IsPercentile(values: seq<int>, ratio: real, e: int) {
    && e in values
    && (if ratio > 0.0 then
          && CountLE(values, e) as real >= |values| as real * ratio
          && forall b :: b < e ==> CountLE(values, b) as real < |values| as real * ratio
        else forall v :: v in values ==> e <= v)
  }

  /** Below the rank is below the share. */
  lemma RankShare(n: nat, ratio: real, count: nat)
    requires n > 0 && ratio <= 1.0
    ensures ratio > 0.0 ==> (count >= Rank(n, ratio) <==> count as real >= n as real * ratio)
    ensures ratio <= 0.0 ==> Rank(n, ratio) == 1
  {
    var share := n as real * ratio;
    if ratio > 0.0 {
      assert share > 0.0;
    } else {
      assert share <= 0.0;
    }
    CeilMeaning(share, count);
    CeilMeaning(share, 0);
  }

  lemma CeilMeaning(x: real, n: int)
    ensures n >= Ceil(x) <==> n as real >= x
  {
  }

  lemma {:induction false} CountSome(values: seq<int>, v: int)
    requires v in values
    ensures CountLE(values, v) >= 1
  {
    if values[0] != v {
      assert v in values[1..];
      CountSome(values[1..], v);
    }
  }

  /** The exact percentile is what counting says it is. */
  lemma NearestRankMeaning(values: seq<int>, ratio: real)
    requires values != [] && ratio <= 1.0
    ensures IsPercentile(values, ratio, NearestRank(values, ratio))
  {
    var e, n := NearestRank(values, ratio), |values|;
    var t := Rank(n, ratio);
    IntOrder();
    StableSortMembers(values, IntLeq);
    assert SortedInts(values)[t - 1] == e;
    assert e in SortedInts(values);
    RankByCounting(values, e, t);
    RankShare(n, ratio, CountLE(values, e));
    forall b | b < e
      ensures CountLE(values, b) < t && (ratio > 0.0 ==> CountLE(values, b) as real < n as real * ratio)
    {
      RankByCounting(values, b, t);
      RankShare(n, ratio, CountLE(values, b));
    }
    forall v | v in values && t == 1 ensures e <= v {
      CountSome(values, v);
    }
  }

  /** Counting leaves no choice. */
  lemma PercentileUnique(values: seq<int>, ratio: real, d: int, e: int)
    requires IsPercentile(values, ratio, d) && IsPercentile(values, ratio, e)
    ensures d == e
  {
  }

  lemma RankMonotone(n: nat, p: real, q: real)
    requires n > 0 && p <= q <= 1.0
    ensures Rank(n, p) <= Rank(n, q)
  {
    ScaledMonotone(n as real, p, q);
    CeilMonotone(n as real * p, n as real * q);
  }

  lemma ScaledMonotone(n: real, p: real, q: real)
    requires n >= 0.0 && p <= q
    ensures n * p <= n * q
  {
    assert n * q - n * p == n * (q - p);
  }

  lemma CeilMonotone(x: real, y: real)
    requires x <= y
    ensures Ceil(x) <= Ceil(y)
  {
  }

  lemma NearestRankMonotone(values: seq<int>, p: real, q: real)
    requires values != [] && p <= q <= 1.0
    ensures NearestRank(values, p) <= NearestRank(values, q)
  {
    RankMonotone(|values|, p, q);
    IntOrder();
    StableSortSorted(values, IntLeq);
    var s := SortedInts(values);
    var i, j := Rank(|values|, p) - 1, Rank(|values|, q) - 1;
    assert i < j ==> IntLeq(s[i], s[j]);
  }

  /** The percentile depends on the values only, not on their order. */
  lemma NearestRankPermuted(a: seq<int>, b: seq<int>, ratio: real)
    requires multiset(a) == multiset(b) && a != [] && ratio <= 1.0
    ensures b != [] && |a| == |b| && NearestRank(a, ratio) == NearestRank(b, ratio)
    ensures SortedInts(a) == SortedInts(b)
  {
    assert |a| == |multiset(a)| == |multiset(b)| == |b|;
    SortPermuted(a, b);
  }

  lemma SortPermuted(a: seq<int>, b: seq<int>)
    requires multiset(a) == multiset(b)
    ensures SortedInts(a) == SortedInts(b)
  {
    IntOrder();
    StableSortSorted(a, IntLeq);
    StableSortSorted(b, IntLeq);
    SortedUnique(SortedInts(a), SortedInts(b), IntLeq);
  }
}
