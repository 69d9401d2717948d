/** The sort of the source languages' libraries: stable, by a total preorder. What is sorted is a permutation of
    what was given; without ties the result does not depend on the order given, with ties elements of equal rank
    keep their order. */
module Sorting {
  ghost predicate TotalPreorder<T(!new)>(leq: (T, T) -> bool) {
    && (forall a, b :: leq(a, b) || leq(b, a))
    && (forall a, b, c :: leq(a, b) && leq(b, c) ==> leq(a, c))
  }

  ghost predicate Sorted<T>(s: seq<T>, leq: (T, T) -> bool) {
    forall i, j :: 0 <= i < j < |s| ==> leq(s[i], s[j])
  }

  function Insert<T>(x: T, s: seq<T>, leq: (T, T) -> bool): (r: seq<T>)
    ensures |r| == |s| + 1
  {
    if s == [] || leq(x, s[0]) then [x] + s else [s[0]] + Insert(x, s[1..], leq)
  }

  /** Stable: an element goes before the later elements it does not exceed. */
  function StableSort<T>(s: seq<T>, leq: (T, T) -> bool): (r: seq<T>)
    ensures |r| == |s|
  {
    if s == [] then [] else Insert(s[0], StableSort(s[1..], leq), leq)
  }

  lemma {:induction false} InsertSorted<T(!new)>(x: T, s: seq<T>, leq: (T, T) -> bool)
    requires TotalPreorder(leq) && Sorted(s, leq)
    ensures Sorted(Insert(x, s, leq), leq)
    ensures multiset(Insert(x, s, leq)) == multiset{x} + multiset(s)
  {
    if s == [] {
    } else if leq(x, s[0]) {
      var r := [x] + s;
      forall i, j | 0 <= i < j < |r| ensures leq(r[i], r[j]) {
        if i == 0 && j > 1 {
          assert leq(s[0], s[j - 1]);
        }
      }
    } else {
      var t := Insert(x, s[1..], leq);
      assert s == [s[0]] + s[1..];
      InsertSorted(x, s[1..], leq);
      forall y | y in t ensures leq(s[0], y) {
        assert y in multiset(t);
        if y != x {
          assert y in s[1..];
        }
      }
    }
  }

  lemma {:induction false} StableSortSorted<T(!new)>(s: seq<T>, leq: (T, T) -> bool)
    requires TotalPreorder(leq)
    ensures Sorted(StableSort(s, leq), leq)
    ensures multiset(StableSort(s, leq)) == multiset(s)
  {
    if s != [] {
      StableSortSorted(s[1..], leq);
      InsertSorted(s[0], StableSort(s[1..], leq), leq);
      assert s == [s[0]] + s[1..];
    }
  }

  lemma StableSortMembers<T(!new)>(s: seq<T>, leq: (T, T) -> bool)
    requires TotalPreorder(leq)
    ensures forall x :: x in StableSort(s, leq) <==> x in s
  {
    StableSortSorted(s, leq);
    forall x ensures x in StableSort(s, leq) <==> x in s {
      assert x in StableSort(s, leq) <==> x in multiset(StableSort(s, leq));
      assert x in s <==> x in multiset(s);
    }
  }

  ghost predicate Distinct<T>(s: seq<T>) {
    forall i, j :: 0 <= i < j < |s| ==> s[i] != s[j]
  }

  lemma {:induction false} DistinctCounts<T>(s: seq<T>)
    requires Distinct(s)
    ensures forall v :: multiset(s)[v] <= 1
  {
    if s != [] {
      DistinctCounts(s[1..]);
      assert s == [s[0]] + s[1..];
      assert s[0] !in s[1..];
    }
  }

  lemma CountsDistinct<T>(s: seq<T>)
    requires forall v :: multiset(s)[v] <= 1
    ensures Distinct(s)
  {
    forall i, j | 0 <= i < j < |s| ensures s[i] != s[j] {
      assert s == s[..i] + [s[i]] + s[i + 1..j] + [s[j]] + s[j + 1..];
      assert multiset(s)[s[i]] <= 1;
    }
  }

  /** Elements that are pairwise different stay so. */
  lemma DistinctFromMultiset<T>(s: seq<T>, t: seq<T>)
    requires multiset(s) == multiset(t) && Distinct(s)
    ensures Distinct(t)
  {
    DistinctCounts(s);
    CountsDistinct(t);
  }

  lemma SameLength<T>(s: seq<T>, t: seq<T>)
    requires multiset(s) == multiset(t)
    ensures |s| == |t|
  {
    assert |t| == |multiset(t)| == |multiset(s)| == |s|;
  }

  lemma SameRest<T>(s: seq<T>, t: seq<T>)
    requires s != [] && t != [] && s[0] == t[0] && multiset(s) == multiset(t)
    ensures multiset(s[1..]) == multiset(t[1..])
  {
    assert s == [s[0]] + s[1..] && t == [t[0]] + t[1..];
    assert multiset(s[1..]) == multiset(s) - multiset{s[0]} == multiset(t) - multiset{t[0]} == multiset(t[1..]);
  }

  ghost predicate EqualRankIsEqual<T(!new)>(s: seq<T>, leq: (T, T) -> bool) {
    forall a, b :: a in s && b in s && leq(a, b) && leq(b, a) ==> a == b
  }

  lemma SameFirst<T(!new)>(s: seq<T>, t: seq<T>, leq: (T, T) -> bool)
    requires s != [] && t != [] && Sorted(s, leq) && Sorted(t, leq) && multiset(s) == multiset(t)
    requires TotalPreorder(leq) && EqualRankIsEqual(s, leq)
    ensures s[0] == t[0]
  {
    assert s[0] in multiset(t) && t[0] in multiset(s);
    assert s[0] in t && t[0] in s;
    assert leq(s[0], t[0]) && leq(t[0], s[0]);
  }

  lemma RestIsSorted<T(!new)>(s: seq<T>, leq: (T, T) -> bool)
    requires s != [] && Sorted(s, leq) && EqualRankIsEqual(s, leq)
    ensures Sorted(s[1..], leq) && EqualRankIsEqual(s[1..], leq)
  {
  }

  /** Two sorted sequences of the same elements are equal when equal rank means equal element. */
  lemma {:induction false} SortedUnique<T(!new)>(s: seq<T>, t: seq<T>, leq: (T, T) -> bool)
    requires Sorted(s, leq) && Sorted(t, leq) && multiset(s) == multiset(t)
    requires TotalPreorder(leq) && EqualRankIsEqual(s, leq)
    ensures s == t
  {
    SameLength(s, t);
    if s != [] {
      SameFirst(s, t, leq);
      SameRest(s, t);
      RestIsSorted(s, leq);
      SortedRest(t, leq);
      SortedUnique(s[1..], t[1..], leq);
      assert s == [s[0]] + s[1..] == [t[0]] + t[1..] == t;
    }
  }

  lemma SortedRest<T>(s: seq<T>, leq: (T, T) -> bool)
    requires s != [] && Sorted(s, leq)
    ensures Sorted(s[1..], leq)
  {
  }

  /** The elements of one rank, in order. */
  function OfRank<T>(s: seq<T>, v: T, leq: (T, T) -> bool): seq<T> {
    if s == [] then []
    else (if leq(s[0], v) && leq(v, s[0]) then [s[0]] else []) + OfRank(s[1..], v, leq)
  }

  lemma {:induction false} InsertStable<T(!new)>(x: T, s: seq<T>, v: T, leq: (T, T) -> bool)
    requires TotalPreorder(leq) && Sorted(s, leq)
    ensures OfRank(Insert(x, s, leq), v, leq) == OfRank([x] + s, v, leq)
  {
    if s != [] && !leq(x, s[0]) {
      InsertStable(x, s[1..], v, leq);
      var r := Insert(x, s, leq);
      assert r[1..] == Insert(x, s[1..], leq);
      assert ([x] + s)[1..] == s;
      assert ([x] + s[1..])[1..] == s[1..];
    }
  }

  /** Stability: elements of equal rank keep their order. */
  lemma {:induction false} StableSortStable<T(!new)>(s: seq<T>, v: T, leq: (T, T) -> bool)
    requires TotalPreorder(leq)
    ensures OfRank(StableSort(s, leq), v, leq) == OfRank(s, v, leq)
  {
    if s != [] {
      StableSortStable(s[1..], v, leq);
      StableSortSorted(s[1..], leq);
      InsertStable(s[0], StableSort(s[1..], leq), v, leq);
      assert ([s[0]] + StableSort(s[1..], leq))[1..] == StableSort(s[1..], leq);
    }
  }

  lemma SortOne<T>(a: T, leq: (T, T) -> bool)
    ensures StableSort([a], leq) == [a]
  {
    assert [a][1..] == [];
    assert StableSort([a][1..], leq) == [];
  }

  lemma SortTwo<T>(a: T, b: T, leq: (T, T) -> bool)
    requires leq(a, b)
    ensures StableSort([a] + [b], leq) == [a] + [b]
  {
    assert ([a] + [b])[1..] == [b];
    SortOne(b, leq);
  }

  lemma {:induction false} InsertBeyond<T>(x: T, s: seq<T>, leq: (T, T) -> bool)
    requires forall y :: y in s ==> !leq(x, y)
    ensures Insert(x, s, leq) == s + [x]
  {
    if s != [] {
      InsertBeyond(x, s[1..], leq);
    }
  }

  lemma {:induction false} InsertBelow<T>(x: T, s: seq<T>, last: T, leq: (T, T) -> bool)
    requires leq(x, last)
    ensures Insert(x, s + [last], leq) == Insert(x, s, leq) + [last]
    decreases |s|
  {
    var more := s + [last];
    if s != [] && !leq(x, s[0]) {
      InsertBelow(x, s[1..], last, leq);
      assert more[1..] == s[1..] + [last];
    }
  }

  /** An element that exceeds all that come after it, and that none before it exceeds, ends up last. */
  lemma {:induction false} LastStays<T(!new)>(front: seq<T>, x: T, back: seq<T>, leq: (T, T) -> bool)
    returns (others: seq<T>)
    requires TotalPreorder(leq)
    requires forall y :: y in front ==> leq(y, x)
    requires forall y :: y in back ==> !leq(x, y)
    ensures StableSort(front + [x] + back, leq) == others + [x]
    decreases |front|
  {
    var s := front + [x] + back;
    if front == [] {
      StableSortMembers(back, leq);
      assert s == [x] + back && s[1..] == back;
      others := StableSort(back, leq);
      InsertBeyond(x, others, leq);
    } else {
      var rest := LastStays(front[1..], x, back, leq);
      assert s[1..] == front[1..] + [x] + back && s[0] == front[0];
      InsertBelow(front[0], rest, x, leq);
      others := Insert(front[0], rest, leq);
    }
  }

  /** Where an element of a permutation stands in the other sequence. */
  lemma Locate<T>(r: T, rest: seq<T>, b: seq<T>) returns (front: seq<T>, back: seq<T>)
    requires multiset(b) == multiset{r} + multiset(rest)
    ensures b == front + [r] + back
    ensures multiset(rest) == multiset(front + back)
  {
    assert r in multiset(b);
    var i :| 0 <= i < |b| && b[i] == r;
    front, back := b[..i], b[i + 1..];
    assert b == front + [r] + back;
    assert multiset(b) == multiset(front) + multiset{r} + multiset(back);
    assert multiset(rest) == multiset(b) - multiset{r};
    assert multiset(front + back) == multiset(front) + multiset(back);
  }
}
