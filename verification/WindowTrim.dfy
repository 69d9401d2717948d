/** The dashboard's row cache (apps/dashboard/src/App.tsx): `mergeRowsIntoCache`, which trims it from both ends, and
    `offsetForVisibleRange`. */
module WindowTrim {
  import opened Numbers

  /** The indices of a page. */
  function Indices(offset: nat, n: nat): (indices: set<nat>)
    ensures forall key :: key in indices <==> offset <= key < offset + n
    ensures |indices| == n
  {
    if n == 0 then {} else Indices(offset, n - 1) + {offset + n - 1}
  }

  /** The cache with the page written over it, row by row. */
  function Merged<T>(current: map<nat, T>, rows: seq<T>, offset: nat): map<nat, T> {
    if rows == [] then current
    else Merged(current, rows[..|rows| - 1], offset)[offset + |rows| - 1 := rows[|rows| - 1]]
  }

  /** The fresh row where there is one, else the old one. */
  lemma {:induction false} MergedAt<T>(current: map<nat, T>, rows: seq<T>, offset: nat, key: nat)
    ensures var merged := Merged(current, rows, offset);
            && (key in merged <==> key in Indices(offset, |rows|) || key in current)
            && (key in merged ==>
                  merged[key] == if key in Indices(offset, |rows|) then rows[key - offset] else current[key])
    decreases |rows|
  {
    if rows != [] {
      MergedAt(current, rows[..|rows| - 1], offset, key);
    }
  }

  function Center(rows: nat, offset: nat): nat {
    offset + rows / 2
  }

  function Distance(key: nat, center: nat): nat {
    if key < center then center - key else key - center
  }

  /** `a` goes before `b`: it is nearer to the centre, or as near and on the left. */
  predicate Before(a: nat, b: nat, center: nat) {
    || Distance(a, center) < Distance(b, center)
    || (Distance(a, center) == Distance(b, center) && a < b)
  }

  /** `kept` holds what goes before everything it leaves out. */
  ghost predicate KeepsNearest<T>(kept: map<nat, T>, whole: map<nat, T>, center: nat) {
    && (forall key :: key in kept ==> key in whole && kept[key] == whole[key])
    && (forall key, gone :: key in kept && gone in whole && gone !in kept ==> Before(key, gone, center))
  }

  function AtMost(maxRows: int): nat {
    if maxRows < 0 then 0 else maxRows
  }

  // ---------------------------------------------------------------- the keys in order

  ghost predicate Ascending(keys: seq<nat>) {
    forall i, j :: 0 <= i < j < |keys| ==> keys[i] < keys[j]
  }

  lemma {:induction false} LeastOf(s: set<nat>) returns (least: nat)
    requires s != {}
    ensures least in s && forall x :: x in s ==> least <= x
    decreases |s|
  {
    var some :| some in s;
    if s == {some} {
      least := some;
    } else {
      assert s == {some} + (s - {some});
      var rest := LeastOf(s - {some});
      least := if rest <= some then rest else some;
    }
  }

  lemma HasLeast(s: set<nat>)
    requires s != {}
    ensures exists least :: least in s && forall x :: x in s ==> least <= x
  {
    var least := LeastOf(s);
  }

  function Least(s: set<nat>): (least: nat)
    requires s != {}
    ensures least in s && forall x :: x in s ==> least <= x
  {
    HasLeast(s);
    var least :| least in s && forall x :: x in s ==> least <= x;
    least
  }

  /** `Object.keys`: array indices come in ascending order. */
  function Keys(s: set<nat>): seq<nat>
    decreases |s|
  {
    if s == {} then [] else [Least(s)] + Keys(s - {Least(s)})
  }

  ghost predicate Lists(keys: seq<nat>, s: set<nat>) {
    forall x :: x in s <==> x in keys
  }

  lemma {:induction false} KeysList(s: set<nat>)
    ensures Lists(Keys(s), s)
    decreases |s|
  {
    if s != {} {
      var least := Least(s);
      KeysList(s - {least});
      ListsMore(Keys(s - {least}), s - {least}, least);
      assert s == s - {least} + {least};
    }
  }

  lemma {:induction false} KeysAscend(s: set<nat>)
    ensures Ascending(Keys(s)) && |Keys(s)| == |s|
    decreases |s|
  {
    if s != {} {
      var least := Least(s);
      KeysAscend(s - {least});
      KeysList(s - {least});
      AscendingMore(least, Keys(s - {least}), s - {least});
    }
  }

  lemma AscendingMore(least: nat, rest: seq<nat>, s: set<nat>)
    requires Ascending(rest) && Lists(rest, s) && forall x :: x in s ==> least < x
    ensures Ascending([least] + rest)
  {
    forall j | 0 <= j < |rest| ensures least < rest[j] {
      assert rest[j] in s;
    }
  }

  method ObjectKeys(s: set<nat>) returns (keys: seq<nat>)
    ensures Lists(keys, s) && Ascending(keys) && |keys| == |s|
  {
    keys := Keys(s);
    KeysList(s);
    KeysAscend(s);
  }

  lemma ListsMore(keys: seq<nat>, s: set<nat>, x: nat)
    requires Lists(keys, s)
    ensures Lists([x] + keys, s + {x})
  {
  }

  // ---------------------------------------------------------------- the trim

  /** The keys the loop leaves, of `keys[left..end]` with `toDelete` to go: where they begin and end. */
  function Ends(keys: seq<nat>, left: nat, end: nat, toDelete: int, center: nat): (ends: (nat, nat))
    requires left <= end <= |keys|
    ensures left <= ends.0 <= ends.1 <= end
    ensures ends.1 - ends.0 == if toDelete <= 0 then end - left else if end - left <= toDelete then 0
                               else end - left - toDelete
    decreases end - left
  {
    if toDelete <= 0 || left == end then (left, end)
    else if Distance(keys[left], center) > Distance(keys[end - 1], center) then
      Ends(keys, left + 1, end, toDelete - 1, center)
    else Ends(keys, left, end - 1, toDelete - 1, center)
  }

  /** The keys it leaves go before those it deletes. */
  lemma {:induction false} EndsGoFirst(keys: seq<nat>, left: nat, end: nat, toDelete: int, center: nat,
                                       kept: nat, gone: nat)
    requires Ascending(keys) && left <= end <= |keys|
    requires var ends := Ends(keys, left, end, toDelete, center);
             && ends.0 <= kept < ends.1
             && left <= gone < end && !(ends.0 <= gone < ends.1)
    ensures Before(keys[kept], keys[gone], center)
    decreases end - left
  {
    if Distance(keys[left], center) > Distance(keys[end - 1], center) {
      if gone != left { EndsGoFirst(keys, left + 1, end, toDelete - 1, center, kept, gone); }
    } else {
      if gone != end - 1 { EndsGoFirst(keys, left, end - 1, toDelete - 1, center, kept, gone); }
    }
  }

  /** `next` is `merged` with the keys from `left` to `end` only. */
  ghost predicate Holds<T>(next: map<nat, T>, merged: map<nat, T>, keys: seq<nat>, left: nat, end: nat)
    requires left <= end <= |keys|
  {
    && (forall i :: 0 <= i < |keys| ==> (keys[i] in next <==> left <= i < end))
    && (forall key :: key in next ==> key in merged && next[key] == merged[key])
    && |next| == end - left
  }

  lemma HoldsLess<T>(next: map<nat, T>, merged: map<nat, T>, keys: seq<nat>, left: nat, end: nat, gone: nat)
    requires Ascending(keys) && left < end <= |keys| && Holds(next, merged, keys, left, end)
    requires gone == left || gone == end - 1
    ensures gone == left ==> Holds(next - {keys[gone]}, merged, keys, left + 1, end)
    ensures gone == end - 1 ==> Holds(next - {keys[gone]}, merged, keys, left, end - 1)
  {
    assert keys[gone] in next;
    assert next.Keys == (next - {keys[gone]}).Keys + {keys[gone]};
    assert |next| == |next.Keys|;
  }

  /** `rows.forEach` */
  method PutRows<T>(current: map<nat, T>, rows: seq<T>, offset: nat) returns (next: map<nat, T>)
    ensures next == Merged(current, rows, offset)
  {
    next := current;
    for index := 0 to |rows|
      invariant next == Merged(current, rows[..index], offset)
    {
      assert rows[..index + 1][..index] == rows[..index];
      next := next[offset + index := rows[index]];
    }
    assert rows[..|rows|] == rows;
  }

  /** The page written over the cache, and the cache trimmed: it keeps the rows that go first, as many as it
      may. That says which ones. */
  method MergeRowsIntoCache<T>(current: map<nat, T>, rows: seq<T>, offset: nat, maxRows: int)
    returns (next: map<nat, T>)
    ensures Trimmed(next, Merged(current, rows, offset), Center(|rows|, offset), maxRows)
  {
    var merged := PutRows(current, rows, offset);
    next := TrimCache(merged, Center(|rows|, offset), maxRows);
  }

  method TrimCache<T>(merged: map<nat, T>, center: nat, maxRows: int) returns (next: map<nat, T>)
    ensures Trimmed(next, merged, center, maxRows)
  {
    var keys := ObjectKeys(merged.Keys);
    HoldsAll(merged, keys);
    if |keys| <= maxRows {
      return merged;
    }
    next := TrimEnds(merged, keys, center, maxRows);
    EndsKeepNearest(next, merged, keys, |keys| - maxRows, center);
  }

  ghost predicate Trimmed<T>(next: map<nat, T>, merged: map<nat, T>, center: nat, maxRows: int) {
    && KeepsNearest(next, merged, center)
    && |next| == if |merged| <= maxRows then |merged| else AtMost(maxRows)
  }

  /** The loop from both ends of the ordered keys. */
  method TrimEnds<T>(merged: map<nat, T>, keys: seq<nat>, center: nat, maxRows: int) returns (next: map<nat, T>)
    requires Ascending(keys) && Holds(merged, merged, keys, 0, |keys|) && |keys| > maxRows
    ensures var ends := Ends(keys, 0, |keys|, |keys| - maxRows, center);
            Holds(next, merged, keys, ends.0, ends.1)
  {
    next := merged;
    var left: nat, right := 0, |keys| - 1;
    var toDelete := |keys| - maxRows;
    while toDelete > 0 && left <= right
      invariant left <= right + 1 <= |keys|
      invariant Ends(keys, left, right + 1, toDelete, center) == Ends(keys, 0, |keys|, |keys| - maxRows, center)
      invariant Holds(next, merged, keys, left, right + 1)
    {
      if Distance(keys[left], center) > Distance(keys[right], center) {
        HoldsLess(next, merged, keys, left, right + 1, left);
        next := next - {keys[left]};
        left := left + 1;
      } else {
        HoldsLess(next, merged, keys, left, right + 1, right);
        next := next - {keys[right]};
        right := right - 1;
      }
      toDelete := toDelete - 1;
    }
  }

  lemma HoldsAll<T>(merged: map<nat, T>, keys: seq<nat>)
    requires Lists(keys, merged.Keys) && |merged.Keys| == |keys|
    ensures Holds(merged, merged, keys, 0, |keys|)
  {
    assert forall i :: 0 <= i < |keys| ==> keys[i] in keys;
    assert |merged| == |merged.Keys|;
  }

  /** What the loop leaves is what goes first. */
  lemma EndsKeepNearest<T>(next: map<nat, T>, merged: map<nat, T>, keys: seq<nat>, toDelete: int, center: nat)
    requires Ascending(keys) && Lists(keys, merged.Keys)
    requires var ends := Ends(keys, 0, |keys|, toDelete, center); Holds(next, merged, keys, ends.0, ends.1)
    ensures KeepsNearest(next, merged, center)
  {
    forall key, gone | key in next && gone in merged && gone !in next ensures Before(key, gone, center) {
      var i :| 0 <= i < |keys| && keys[i] == key;
      var j :| 0 <= j < |keys| && keys[j] == gone;
      EndsGoFirst(keys, 0, |keys|, toDelete, center, i, j);
    }
  }

  // ---------------------------------------------------------------- what the contract comes to

  /** Going before is a strict total order, so two caches of the same size that keep what goes first are the
      same cache: the trim has no freedom. */
  lemma KeptRowsAreUnique<T>(kept: map<nat, T>, other: map<nat, T>, whole: map<nat, T>, center: nat)
    requires KeepsNearest(kept, whole, center) && KeepsNearest(other, whole, center) && |kept| == |other|
    ensures kept == other
  {
    if kept.Keys != other.Keys {
      if kept.Keys <= other.Keys {
        SmallerSubset(kept.Keys, other.Keys);
        assert false;
      } else if other.Keys <= kept.Keys {
        SmallerSubset(other.Keys, kept.Keys);
        assert false;
      } else {
        var a :| a in kept.Keys && a !in other.Keys;
        var b :| b in other.Keys && b !in kept.Keys;
        NotBoth(kept, whole, center, a, b);
        NotBoth(other, whole, center, b, a);
        assert false;
      }
    }
  }

  lemma NotBoth<T>(kept: map<nat, T>, whole: map<nat, T>, center: nat, a: nat, b: nat)
    requires KeepsNearest(kept, whole, center) && a in kept && b in whole && b !in kept
    ensures Before(a, b, center)
  {
  }

  lemma SmallerSubset(a: set<nat>, b: set<nat>)
    requires a <= b && a != b
    ensures |a| < |b|
  {
    assert b == a + (b - a);
    assert b - a != {};
  }

  /** The page's own indices go before all others. */
  lemma PageGoesFirst(key: nat, inside: nat, rows: nat, offset: nat)
    requires offset <= inside < offset + rows
    requires Before(key, inside, Center(rows, offset))
    ensures offset <= key < offset + rows
  {
  }

  /** The row at `i` of the page is in the cache, with its new value. */
  ghost predicate Fresh<T>(next: map<nat, T>, rows: seq<T>, offset: nat, i: nat)
    requires i < |rows|
  {
    offset + i in next && next[offset + i] == rows[i]
  }

  lemma InsideKept<T>(next: map<nat, T>, merged: map<nat, T>, rows: nat, offset: nat, maxRows: int, inside: nat)
    requires Trimmed(next, merged, Center(rows, offset), maxRows)
    requires rows <= maxRows && offset <= inside < offset + rows && inside in merged
    ensures inside in next && next[inside] == merged[inside]
  {
    if inside !in next {
      PageGoesFirstOnly(next, merged, rows, offset, inside);
      SmallerSubset(next.Keys, merged.Keys);
      assert false;
    }
  }

  lemma PageGoesFirstOnly<T>(next: map<nat, T>, merged: map<nat, T>, rows: nat, offset: nat, inside: nat)
    requires KeepsNearest(next, merged, Center(rows, offset))
    requires offset <= inside < offset + rows && inside in merged && inside !in next
    ensures |next| < rows
  {
    var others := Indices(offset, rows) - {inside};
    forall key | key in next ensures key in others {
      NotBoth(next, merged, Center(rows, offset), key, inside);
      PageGoesFirst(key, inside, rows, offset);
    }
    SubsetSize(next.Keys, others);
    assert |next.Keys| == |next|;
  }

  lemma {:induction false} MergedRow<T>(current: map<nat, T>, rows: seq<T>, offset: nat, i: nat)
    requires i < |rows|
    ensures offset + i in Merged(current, rows, offset) && Merged(current, rows, offset)[offset + i] == rows[i]
    decreases |rows|
  {
    if i < |rows| - 1 {
      MergedRow(current, rows[..|rows| - 1], offset, i);
    }
  }

  lemma PageRowKept<T>(merged: map<nat, T>, rows: seq<T>, offset: nat, maxRows: int, next: map<nat, T>, i: nat)
    requires Trimmed(next, merged, Center(|rows|, offset), maxRows)
    requires i < |rows| <= maxRows && offset + i in merged && merged[offset + i] == rows[i]
    ensures Fresh(next, rows, offset, i)
  {
    InsideKept(next, merged, |rows|, offset, maxRows, offset + i);
  }

  /** Every fresh row is in the trimmed cache with its new value exactly when the page itself fits, on distance
      ties too. */
  lemma FreshRowsKept<T>(current: map<nat, T>, rows: seq<T>, offset: nat, maxRows: int, next: map<nat, T>)
    requires Trimmed(next, Merged(current, rows, offset), Center(|rows|, offset), maxRows)
    ensures (forall i: nat :: i < |rows| ==> Fresh(next, rows, offset, i)) <==> |rows| <= AtMost(maxRows)
  {
    if |rows| <= AtMost(maxRows) {
      forall i: nat | i < |rows| ensures Fresh(next, rows, offset, i) {
        MergedRow(current, rows, offset, i);
        PageRowKept(Merged(current, rows, offset), rows, offset, maxRows, next, i);
      }
    } else if forall i: nat :: i < |rows| ==> Fresh(next, rows, offset, i) {
      PageInside(current, rows, offset, maxRows, next);
    }
  }

  lemma PageInside<T>(current: map<nat, T>, rows: seq<T>, offset: nat, maxRows: int, next: map<nat, T>)
    requires Trimmed(next, Merged(current, rows, offset), Center(|rows|, offset), maxRows)
    requires forall i: nat :: i < |rows| ==> Fresh(next, rows, offset, i)
    ensures |rows| <= AtMost(maxRows)
  {
    forall key | key in Indices(offset, |rows|) ensures key in next {
      assert Fresh(next, rows, offset, key - offset);
    }
    SubsetSize(Indices(offset, |rows|), next.Keys);
  }

  lemma SubsetSize(a: set<nat>, b: set<nat>)
    requires a <= b
    ensures |a| <= |b|
  {
    if a != b { SmallerSubset(a, b); }
  }

  // ---------------------------------------------------------------- which page to fetch

  const ROW_FETCH_PADDING := 80

  function MaxReal(a: real, b: real): real {
    if a < b then b else a
  }

  function VisibleStart(row: real): real {
    MaxReal(0.0, row)
  }

  function VisibleCount(height: real): int {
    if Ceil(height) < 1 then 1 else Ceil(height)
  }

  function VisibleEnd(row: real, height: real): real {
    VisibleStart(row) + VisibleCount(height) as real
  }

  /** `Math.max(0, Math.floor(x / stride) * stride)` */
  function StrideBelow(x: real, stride: int): real
    requires stride > 0
  {
    MaxReal(0.0, ((x / stride as real).Floor * stride) as real)
  }

  function OffsetForVisibleRange(row: real, height: real, stride: int, pageSize: int): real
    requires stride > 0
  {
    var padded := StrideBelow(MaxReal(0.0, VisibleStart(row) - ROW_FETCH_PADDING as real), stride);
    var visible := StrideBelow(VisibleStart(row), stride);
    if padded + pageSize as real >= VisibleEnd(row, height) then padded
    else if visible + pageSize as real >= VisibleEnd(row, height) then visible
    else MaxReal(0.0, VisibleEnd(row, height) - pageSize as real)
  }

  lemma FloorTimes(x: real, stride: int)
    requires stride > 0 && x >= 0.0
    ensures var multiple := ((x / stride as real).Floor * stride) as real; 0.0 <= multiple <= x
  {
    var q := x / stride as real;
    assert q * stride as real == x;
    assert 0.0 <= q.Floor as real <= q;
    assert q.Floor as real * stride as real <= q * stride as real;
  }

  /** The page picked covers every visible row exactly when a page can: when no more rows are visible than it
      holds. */
  lemma VisibleRowsCovered(row: real, height: real, stride: int, pageSize: int)
    requires stride > 0
    ensures var offset := OffsetForVisibleRange(row, height, stride, pageSize);
            && offset >= 0.0
            && (offset <= VisibleStart(row) && offset + pageSize as real >= VisibleEnd(row, height)
                <==> VisibleCount(height) <= pageSize)
  {
    FloorTimes(VisibleStart(row), stride);
    FloorTimes(MaxReal(0.0, VisibleStart(row) - ROW_FETCH_PADDING as real), stride);
  }

  /** `n` is the number of rows that a height shows: the least whole number that reaches it, and at least one. */
  predicate Shows(height: real, n: int) {
    if height <= 1.0 then n == 1 else (n - 1) as real < height <= n as real
  }

  /** `q` strides are the most that fit below `x`. */
  predicate StridesFit(q: int, x: real, stride: int) {
    (q * stride) as real <= x < ((q + 1) * stride) as real
  }

  lemma Scaled(a: real, b: real, d: real)
    requires a < b && d > 0.0
    ensures a * d < b * d
  {
    assert (b - a) * d > 0.0;
  }

  lemma QuotientFloor(d: real, stride: real, q: int)
    requires stride > 0.0 && q as real * stride <= d * stride < (q + 1) as real * stride
    ensures d.Floor == q
  {
    if d < q as real {
      Scaled(d, q as real, stride);
      assert false;
    }
    if (q + 1) as real < d {
      Scaled((q + 1) as real, d, stride);
      assert false;
    }
    assert d != (q + 1) as real;
  }

  lemma FloorFits(x: real, stride: int, q: int)
    requires stride > 0 && x >= 0.0 && StridesFit(q, x, stride)
    ensures StrideBelow(x, stride) == (q * stride) as real
  {
    var d, s := x / stride as real, stride as real;
    assert d * s == x;
    assert (q * stride) as real == q as real * s && ((q + 1) * stride) as real == (q + 1) as real * s;
    QuotientFloor(d, s, q);
    FloorTimes(x, stride);
  }

  /** Which page is fetched: with `start` the first visible row and `end` the one after the last, the page at the last
      stride up to 80 rows before the start when that reaches the end, else the one at the last stride up to the start,
      else the one that ends at the end. */
  lemma PageFetched(row: real, height: real, stride: int, pageSize: int, start: real, n: int, padded: int, aligned: int)
    requires stride > 0 && start == (if row < 0.0 then 0.0 else row) && Shows(height, n)
    requires StridesFit(padded, if start < 80.0 then 0.0 else start - 80.0, stride)
    requires StridesFit(aligned, start, stride)
    ensures var end, offset := start + n as real, OffsetForVisibleRange(row, height, stride, pageSize);
            if (padded * stride + pageSize) as real >= end then offset == (padded * stride) as real
            else if (aligned * stride + pageSize) as real >= end then offset == (aligned * stride) as real
            else offset == if end < pageSize as real then 0.0 else end - pageSize as real
  {
    assert VisibleStart(row) == start && VisibleCount(height) == n;
    FloorFits(if start < 80.0 then 0.0 else start - 80.0, stride, padded);
    FloorFits(start, stride, aligned);
  }
}
