/** `evictQueryCache` (packages/client/src/kv-stores.ts): least-recently-used eviction against
    two caps per scope and one for the whole table. */
module QueryEviction {
  import opened Texts
  import opened Sorting
  import opened Options
  import opened OrderedMaps
  import Json

  datatype Record = Record(
    scope: Text,
    path: Text,
    result: Json.Value,
    revision: Text,
    writtenAt: int,
    lastAccessedAt: int,
    sizeBytes: nat)

  /** A stored string, as `parseJson` sees it. */
  datatype Stored = Parsed(record: Record) | Corrupt

  type Table = seq<Entry<Text, Stored>>

  datatype Row = Row(key: Text, record: Record)

  datatype Limits = Limits(maxEntriesPerScope: int, maxBytesPerScope: int, maxBytes: int)

  predicate AccessedNoLater(a: Row, b: Row) {
    a.record.lastAccessedAt <= b.record.lastAccessedAt
  }

  /** The rows that parse, in the table's order. */
  function RowsOf(table: Table): seq<Row> {
    if table == [] then []
    else
      (match table[0].value
       case Parsed(record) => [Row(table[0].key, record)]
       case Corrupt => []) + RowsOf(table[1..])
  }

  function OfScope(rows: seq<Row>, scope: Text): seq<Row> {
    if rows == [] then []
    else (if rows[0].record.scope == scope then [rows[0]] else []) + OfScope(rows[1..], scope)
  }

  function Bytes(rows: seq<Row>): nat {
    if rows == [] then 0 else rows[0].record.sizeBytes + Bytes(rows[1..])
  }

  /** Whether `row` may stay beside the newer rows `kept`. */
  predicate Fits(row: Row, kept: seq<Row>, limits: Limits) {
    var same := OfScope(kept, row.record.scope);
    |same| < limits.maxEntriesPerScope && Bytes(same) + row.record.sizeBytes <= limits.maxBytesPerScope
  }

  /** The per-scope phase on rows listed oldest first: each row stays if it fits beside the newer
      rows that stay. */
  function Survivors(rows: seq<Row>, limits: Limits): seq<Row> {
    if rows == [] then []
    else
      var newer := Survivors(rows[1..], limits);
      if Fits(rows[0], newer, limits) then [rows[0]] + newer else newer
  }

  /** The global phase: drop the oldest rows until the rest fit in `maxBytes`. */
  function DropOldest(rows: seq<Row>, maxBytes: int): seq<Row> {
    if rows == [] || Bytes(rows) <= maxBytes then rows else DropOldest(rows[1..], maxBytes)
  }

  function SortedRows(table: Table): seq<Row> {
    StableSort(RowsOf(table), AccessedNoLater)
  }

  /** The rows an eviction pass keeps, oldest first. */
  function Kept(table: Table, limits: Limits): seq<Row> {
    DropOldest(Survivors(SortedRows(table), limits), limits.maxBytes)
  }

  ghost function Keys(rows: seq<Row>): set<Text> {
    set r | r in rows :: r.key
  }

  ghost function EvictedKeys(table: Table, limits: Limits): set<Text> {
    KeySet(table) - Keys(Kept(table, limits))
  }

  ghost function AfterEviction(table: Table, limits: Limits): Table {
    Without(table, EvictedKeys(table, limits))
  }

  ghost predicate DistinctRowKeys(rows: seq<Row>) {
    forall i, j :: 0 <= i < j < |rows| ==> rows[i].key != rows[j].key
  }

  // ---------------------------------------------------------------- rows and sums

  lemma {:induction false} RowsOfAppend(table: Table, e: Entry<Text, Stored>)
    ensures RowsOf(table + [e]) == RowsOf(table) + RowsOf([e])
  {
    if table == [] {
      assert table + [e] == [e];
    } else {
      RowsOfAppend(table[1..], e);
      assert (table + [e])[1..] == table[1..] + [e];
    }
  }

  lemma {:induction false} RowsOfMember(table: Table, r: Row)
    ensures r in RowsOf(table) <==> Entry(r.key, Parsed(r.record)) in table
  {
    if table != [] {
      RowsOfMember(table[1..], r);
      assert table == [table[0]] + table[1..];
    }
  }

  lemma {:induction false} RowsOfDistinct(table: Table)
    requires UniqueKeys(table)
    ensures DistinctRowKeys(RowsOf(table))
  {
    if table != [] {
      RowsOfDistinct(table[1..]);
      var rest := RowsOf(table[1..]);
      forall j | 0 <= j < |rest| ensures rest[j].key != table[0].key {
        RowsOfMember(table[1..], rest[j]);
      }
    }
  }

  lemma SortedRowsFacts(table: Table)
    requires UniqueKeys(table)
    ensures Sorted(SortedRows(table), AccessedNoLater)
    ensures multiset(SortedRows(table)) == multiset(RowsOf(table))
    ensures DistinctRowKeys(SortedRows(table))
    ensures forall r :: r in SortedRows(table) <==> Entry(r.key, Parsed(r.record)) in table
  {
    var rows := RowsOf(table);
    StableSortSorted(rows, AccessedNoLater);
    StableSortMembers(rows, AccessedNoLater);
    forall r ensures r in rows <==> Entry(r.key, Parsed(r.record)) in table {
      RowsOfMember(table, r);
    }
    RowsOfDistinct(table);
    DistinctByMembers(rows, SortedRows(table));
  }

  lemma DistinctByMembers(rows: seq<Row>, other: seq<Row>)
    requires DistinctRowKeys(rows) && multiset(rows) == multiset(other)
    ensures DistinctRowKeys(other)
  {
    DistinctFromMultiset(rows, other);
    forall i, j | 0 <= i < j < |other| ensures other[i].key != other[j].key {
      assert other[i] in multiset(rows) && other[j] in multiset(rows);
      assert other[i] in rows && other[j] in rows;
    }
  }

  lemma {:induction false} OfScopeMembers(rows: seq<Row>, scope: Text)
    ensures forall r :: r in OfScope(rows, scope) <==> r in rows && r.record.scope == scope
    ensures DistinctRowKeys(rows) ==> DistinctRowKeys(OfScope(rows, scope))
  {
    if rows != [] {
      OfScopeMembers(rows[1..], scope);
      assert rows == [rows[0]] + rows[1..];
      var rest := OfScope(rows[1..], scope);
      if DistinctRowKeys(rows) {
        forall j | 0 <= j < |rest| ensures rest[j].key != rows[0].key {
          assert rest[j] in rows[1..];
        }
      }
    }
  }

  lemma Prepend(r: Row, rows: seq<Row>, scope: Text)
    ensures OfScope([r] + rows, scope)
            == if r.record.scope == scope then [r] + OfScope(rows, scope) else OfScope(rows, scope)
    ensures Bytes([r] + rows) == r.record.sizeBytes + Bytes(rows)
  {
    assert ([r] + rows)[1..] == rows;
  }

  lemma {:induction false} OfScopeAppend(a: seq<Row>, b: seq<Row>, scope: Text)
    ensures OfScope(a + b, scope) == OfScope(a, scope) + OfScope(b, scope)
  {
    if a == [] {
      assert a + b == b;
    } else {
      OfScopeAppend(a[1..], b, scope);
      AppendToHead(a[0], a[1..], b, scope);
      assert a == [a[0]] + a[1..];
    }
  }

  lemma AppendToHead(x: Row, rest: seq<Row>, b: seq<Row>, scope: Text)
    requires OfScope(rest + b, scope) == OfScope(rest, scope) + OfScope(b, scope)
    ensures OfScope([x] + rest + b, scope) == OfScope([x] + rest, scope) + OfScope(b, scope)
  {
    HeadConcat(x, rest, b);
    HeadConcat(x, OfScope(rest, scope), OfScope(b, scope));
    Prepend(x, rest, scope);
    Prepend(x, rest + b, scope);
  }

  lemma HeadConcat(x: Row, a: seq<Row>, b: seq<Row>)
    ensures [x] + a + b == [x] + (a + b)
  {
  }

  lemma {:induction false} BytesAppend(a: seq<Row>, b: seq<Row>)
    ensures Bytes(a + b) == Bytes(a) + Bytes(b)
  {
    if a == [] {
      assert a + b == b;
    } else {
      BytesAppend(a[1..], b);
      assert (a + b)[1..] == a[1..] + b;
    }
  }

  lemma MoveToFront(front: seq<Row>, r: Row, back: seq<Row>, scope: Text)
    ensures Bytes(front + [r] + back) == r.record.sizeBytes + Bytes(front + back)
    ensures |OfScope(front + [r] + back, scope)|
            == |OfScope(front + back, scope)| + if r.record.scope == scope then 1 else 0
    ensures Bytes(OfScope(front + [r] + back, scope))
            == Bytes(OfScope(front + back, scope)) + if r.record.scope == scope then r.record.sizeBytes else 0
  {
    assert front + [r] + back == front + ([r] + back);
    Prepend(r, back, scope);
    BytesAppend(front, back);
    BytesAppend(front, [r] + back);
    OfScopeAppend(front, back, scope);
    OfScopeAppend(front, [r] + back, scope);
    Prepend(r, OfScope(back, scope), scope);
    BytesAppend(OfScope(front, scope), OfScope(back, scope));
    BytesAppend(OfScope(front, scope), OfScope([r] + back, scope));
  }

  /** Sums and scopes do not depend on the order of the rows. */
  lemma {:induction false} OrderIrrelevant(a: seq<Row>, b: seq<Row>, scope: Text)
    requires multiset(a) == multiset(b)
    ensures Bytes(a) == Bytes(b)
    ensures |OfScope(a, scope)| == |OfScope(b, scope)| && Bytes(OfScope(a, scope)) == Bytes(OfScope(b, scope))
  {
    if a == [] {
      assert |b| == |multiset(b)| == 0;
    } else {
      var r, rest := a[0], a[1..];
      assert a == [r] + rest;
      var front, back := Locate(r, rest, b);
      OrderIrrelevant(rest, front + back, scope);
      MoveToFront([], r, rest, scope);
      assert [] + [r] + rest == a && [] + rest == rest;
      MoveToFront(front, r, back, scope);
    }
  }

  // ---------------------------------------------------------------- the two phases

  /** What remains of `rows` is a subsequence of it. */
  lemma {:induction false} SurvivorsMember(rows: seq<Row>, limits: Limits)
    ensures forall r :: r in Survivors(rows, limits) ==> r in rows
    ensures DistinctRowKeys(rows) ==> DistinctRowKeys(Survivors(rows, limits))
  {
    if rows != [] {
      SurvivorsMember(rows[1..], limits);
      assert rows == [rows[0]] + rows[1..];
      var newer := Survivors(rows[1..], limits);
      if DistinctRowKeys(rows) {
        forall j | 0 <= j < |newer| ensures newer[j].key != rows[0].key {
          assert newer[j] in rows[1..];
        }
      }
    }
  }

  lemma {:induction false} SurvivorsWithinScopeCaps(rows: seq<Row>, limits: Limits, scope: Text)
    requires limits.maxEntriesPerScope >= 0 && limits.maxBytesPerScope >= 0
    ensures var same := OfScope(Survivors(rows, limits), scope);
            |same| <= limits.maxEntriesPerScope && Bytes(same) <= limits.maxBytesPerScope
  {
    if rows != [] {
      SurvivorsWithinScopeCaps(rows[1..], limits, scope);
      var newer := Survivors(rows[1..], limits);
      Prepend(rows[0], newer, scope);
      Prepend(rows[0], OfScope(newer, scope), scope);
    }
  }

  ghost predicate WithinScopeCaps(rows: seq<Row>, limits: Limits) {
    forall scope :: |OfScope(rows, scope)| <= limits.maxEntriesPerScope
                    && Bytes(OfScope(rows, scope)) <= limits.maxBytesPerScope
  }

  lemma {:induction false} SurvivorsUnchanged(rows: seq<Row>, limits: Limits)
    requires WithinScopeCaps(rows, limits)
    ensures Survivors(rows, limits) == rows
  {
    if rows != [] {
      forall scope
        ensures |OfScope(rows[1..], scope)| <= limits.maxEntriesPerScope
        ensures Bytes(OfScope(rows[1..], scope)) <= limits.maxBytesPerScope
      {
        assert |OfScope(rows, scope)| <= limits.maxEntriesPerScope;
        assert Bytes(OfScope(rows, scope)) <= limits.maxBytesPerScope;
        assert rows == [rows[0]] + rows[1..];
        Prepend(rows[0], rows[1..], scope);
        Prepend(rows[0], OfScope(rows[1..], scope), scope);
      }
      SurvivorsUnchanged(rows[1..], limits);
      var scope := rows[0].record.scope;
      assert |OfScope(rows, scope)| <= limits.maxEntriesPerScope;
      Prepend(rows[0], OfScope(rows[1..], scope), scope);
    }
  }

  /** The scopes do not influence each other in the per-scope phase. */
  lemma {:induction false} SurvivorsByScope(rows: seq<Row>, limits: Limits, scope: Text)
    ensures OfScope(Survivors(rows, limits), scope) == Survivors(OfScope(rows, scope), limits)
  {
    if rows != [] {
      SurvivorsByScope(rows[1..], limits, scope);
      var newer := Survivors(rows[1..], limits);
      Prepend(rows[0], newer, scope);
      if rows[0].record.scope == scope {
        var same := OfScope(rows[1..], scope);
        assert OfScope(rows, scope) == [rows[0]] + same && ([rows[0]] + same)[1..] == same;
        OfScopeTwice(newer, scope);
        assert OfScope(Survivors(same, limits), scope) == OfScope(newer, scope);
        assert Fits(rows[0], newer, limits) == Fits(rows[0], Survivors(same, limits), limits);
        assert Survivors([rows[0]] + same, limits)
               == if Fits(rows[0], newer, limits) then [rows[0]] + Survivors(same, limits) else Survivors(same, limits);
      } else {
        assert OfScope(rows, scope) == OfScope(rows[1..], scope);
      }
    }
  }

  lemma {:induction false} OfScopeTwice(rows: seq<Row>, scope: Text)
    ensures OfScope(OfScope(rows, scope), scope) == OfScope(rows, scope)
  {
    if rows != [] {
      OfScopeTwice(rows[1..], scope);
      Prepend(rows[0], OfScope(rows[1..], scope), scope);
    }
  }

  /** The global phase removes the shortest oldest part that brings the rest within `maxBytes`. */
  lemma {:induction false} DropOldestShortestPrefix(rows: seq<Row>, maxBytes: int) returns (k: nat)
    ensures k <= |rows| && DropOldest(rows, maxBytes) == rows[k..]
    ensures maxBytes >= 0 ==> Bytes(rows[k..]) <= maxBytes
    ensures forall j :: 0 <= j < k ==> Bytes(rows[j..]) > maxBytes
  {
    if rows == [] || Bytes(rows) <= maxBytes {
      k := 0;
    } else {
      var k' := DropOldestShortestPrefix(rows[1..], maxBytes);
      k := k' + 1;
      assert rows[k..] == rows[1..][k'..];
      forall j | 0 <= j < k ensures Bytes(rows[j..]) > maxBytes {
        if j > 0 {
          assert rows[j..] == rows[1..][j - 1..];
        }
      }
    }
  }

  // ---------------------------------------------------------------- main results

  lemma KeptFacts(table: Table, limits: Limits)
    requires UniqueKeys(table)
    ensures forall r :: r in Kept(table, limits) ==> Entry(r.key, Parsed(r.record)) in table
    ensures DistinctRowKeys(Kept(table, limits))
  {
    SortedRowsFacts(table);
    SurvivorsMember(SortedRows(table), limits);
    var k := DropOldestShortestPrefix(Survivors(SortedRows(table), limits), limits.maxBytes);
  }

  lemma AfterEvictionMember(table: Table, limits: Limits, e: Entry<Text, Stored>)
    requires UniqueKeys(table)
    ensures e in AfterEviction(table, limits)
            <==> e.value.Parsed? && Row(e.key, e.value.record) in Kept(table, limits)
  {
    KeptFacts(table, limits);
    WithoutMember(table, EvictedKeys(table, limits), e);
    if e in AfterEviction(table, limits) {
      assert e.key in KeySet(table);
      assert e.key in Keys(Kept(table, limits));
      var r :| r in Kept(table, limits) && r.key == e.key;
      FindMember(table, e);
      FindMember(table, Entry(r.key, Parsed(r.record)));
    }
  }

  /** The rows left in the table are the kept rows. */
  lemma AfterEvictionRows(table: Table, limits: Limits)
    requires UniqueKeys(table)
    ensures UniqueKeys(AfterEviction(table, limits))
    ensures multiset(RowsOf(AfterEviction(table, limits))) == multiset(Kept(table, limits))
  {
    var after, kept := AfterEviction(table, limits), Kept(table, limits);
    KeptFacts(table, limits);
    WithoutUnique(table, EvictedKeys(table, limits));
    RowsOfDistinct(after);
    DistinctCounts(RowsOf(after));
    DistinctCounts(kept);
    forall r ensures multiset(RowsOf(after))[r] == multiset(kept)[r] {
      RowsOfMember(after, r);
      AfterEvictionMember(table, limits, Entry(r.key, Parsed(r.record)));
      assert r in RowsOf(after) <==> r in multiset(RowsOf(after));
      assert r in kept <==> r in multiset(kept);
    }
  }

  ghost predicate WithinCaps(table: Table, limits: Limits) {
    WithinScopeCaps(RowsOf(table), limits) && Bytes(RowsOf(table)) <= limits.maxBytes
  }

  ghost predicate NoCorruptRows(table: Table) {
    forall e :: e in table ==> e.value.Parsed?
  }

  /** After a pass every scope is within its two caps and the table within the global cap. */
  lemma EvictionMeetsCaps(table: Table, limits: Limits)
    requires UniqueKeys(table)
    requires limits.maxEntriesPerScope >= 0 && limits.maxBytesPerScope >= 0 && limits.maxBytes >= 0
    ensures WithinCaps(AfterEviction(table, limits), limits)
    ensures NoCorruptRows(AfterEviction(table, limits))
  {
    var after, kept := RowsOf(AfterEviction(table, limits)), Kept(table, limits);
    AfterEvictionRows(table, limits);
    var survivors := Survivors(SortedRows(table), limits);
    var k := DropOldestShortestPrefix(survivors, limits.maxBytes);
    assert survivors == survivors[..k] + survivors[k..];
    forall scope
      ensures |OfScope(after, scope)| <= limits.maxEntriesPerScope
      ensures Bytes(OfScope(after, scope)) <= limits.maxBytesPerScope
    {
      OrderIrrelevant(after, kept, scope);
      SurvivorsWithinScopeCaps(SortedRows(table), limits, scope);
      OfScopeAppend(survivors[..k], survivors[k..], scope);
      BytesAppend(OfScope(survivors[..k], scope), OfScope(survivors[k..], scope));
    }
    OrderIrrelevant(after, kept, []);
    forall e | e in AfterEviction(table, limits) ensures e.value.Parsed? {
      AfterEvictionMember(table, limits, e);
    }
  }

  /** A table already within all caps and without corrupt rows is left as it is. */
  lemma EvictionUnchanged(table: Table, limits: Limits)
    requires UniqueKeys(table) && WithinCaps(table, limits) && NoCorruptRows(table)
    ensures Kept(table, limits) == SortedRows(table)
    ensures AfterEviction(table, limits) == table
  {
    var rows := SortedRows(table);
    SortedRowsFacts(table);
    forall scope
      ensures |OfScope(rows, scope)| <= limits.maxEntriesPerScope
      ensures Bytes(OfScope(rows, scope)) <= limits.maxBytesPerScope
    {
      OrderIrrelevant(RowsOf(table), rows, scope);
      assert |OfScope(RowsOf(table), scope)| <= limits.maxEntriesPerScope;
    }
    OrderIrrelevant(RowsOf(table), rows, []);
    SurvivorsUnchanged(rows, limits);
    forall k | k in KeySet(table) ensures k in Keys(rows) {
      var e :| e in table && e.key == k;
      assert Row(k, e.value.record) in rows;
    }
    WithoutNone(table, EvictedKeys(table, limits));
  }

  lemma EvictionIdempotent(table: Table, limits: Limits)
    requires UniqueKeys(table)
    requires limits.maxEntriesPerScope >= 0 && limits.maxBytesPerScope >= 0 && limits.maxBytes >= 0
    ensures AfterEviction(AfterEviction(table, limits), limits) == AfterEviction(table, limits)
  {
    AfterEvictionRows(table, limits);
    EvictionMeetsCaps(table, limits);
    EvictionUnchanged(AfterEviction(table, limits), limits);
  }

  lemma {:induction false} SurvivorsLast(rows: seq<Row>, latest: Row, limits: Limits)
    requires limits.maxEntriesPerScope > 0
    ensures var r := Survivors(rows + [latest], limits);
            if latest.record.sizeBytes <= limits.maxBytesPerScope
            then r != [] && r[|r| - 1] == latest
            else forall x :: x in r ==> x in rows
  {
    if rows == [] {
      assert [] + [latest] == [latest];
      assert [latest][1..] == [];
    } else {
      SurvivorsLast(rows[1..], latest, limits);
      assert (rows + [latest])[1..] == rows[1..] + [latest];
      assert rows == [rows[0]] + rows[1..];
    }
  }

  lemma {:induction false} DropOldestLast(rows: seq<Row>, latest: Row, maxBytes: int)
    requires maxBytes >= 0
    ensures var r := DropOldest(rows + [latest], maxBytes);
            if latest.record.sizeBytes <= maxBytes then r != [] && r[|r| - 1] == latest else r == []
  {
    BytesAppend(rows, [latest]);
    assert [latest][1..] == [];
    assert Bytes([latest]) == latest.record.sizeBytes;
    if rows == [] {
      assert rows + [latest] == [latest];
    } else {
      DropOldestLast(rows[1..], latest, maxBytes);
      assert (rows + [latest])[1..] == rows[1..] + [latest];
    }
  }

  lemma {:induction false} RowsOfConcat(a: Table, b: Table)
    ensures RowsOf(a + b) == RowsOf(a) + RowsOf(b)
    decreases |b|
  {
    if b == [] {
      assert a + b == a;
    } else {
      var init, last := b[..|b| - 1], b[|b| - 1];
      RowsOfConcat(a, init);
      RowsOfAppend(a + init, last);
      RowsOfAppend(init, last);
      assert b == init + [last] && a + b == (a + init) + [last];
      AppendThree(RowsOf(a), RowsOf(init), RowsOf([last]));
    }
  }

  lemma AppendThree(a: seq<Row>, b: seq<Row>, c: seq<Row>)
    ensures (a + b) + c == a + (b + c)
  {
  }

  lemma {:induction false} RowsOfIndex(table: Table, r: Row) returns (j: nat)
    requires r in RowsOf(table)
    ensures j < |table| && table[j] == Entry(r.key, Parsed(r.record))
  {
    if table[0] == Entry(r.key, Parsed(r.record)) {
      j := 0;
    } else {
      var k := RowsOfIndex(table[1..], r);
      j := k + 1;
    }
  }

  function AccessTime(stored: Stored): int {
    match stored case Parsed(record) => record.lastAccessedAt case Corrupt => 0
  }

  /** No row was accessed after the one at `p`, and those accessed at the same time stand before it in the table. */
  ghost predicate LatestAt(table: Table, p: nat) {
    && p < |table| && table[p].value.Parsed?
    && forall j :: 0 <= j < |table| && j != p && table[j].value.Parsed? ==>
         || AccessTime(table[j].value) < AccessTime(table[p].value)
         || (AccessTime(table[j].value) == AccessTime(table[p].value) && j < p)
  }

  function RowAt(table: Table, p: nat): Row
    requires p < |table| && table[p].value.Parsed?
  {
    Row(table[p].key, table[p].value.record)
  }

  lemma LatestIsLast(table: Table, p: nat) returns (older: seq<Row>)
    requires UniqueKeys(table) && LatestAt(table, p)
    ensures SortedRows(table) == older + [RowAt(table, p)]
    ensures RowAt(table, p) !in older
  {
    var front, latest, back := RowsOf(table[..p]), RowAt(table, p), RowsOf(table[p + 1..]);
    assert table == table[..p] + ([table[p]] + table[p + 1..]);
    RowsOfConcat(table[..p], [table[p]] + table[p + 1..]);
    RowsOfConcat([table[p]], table[p + 1..]);
    var single: Table := [table[p]];
    assert single[1..] == [] && RowsOf(single) == [latest];
    assert RowsOf(table) == front + [latest] + back;
    forall r | r in front ensures AccessedNoLater(r, latest) {
      var j := RowsOfIndex(table[..p], r);
      assert table[j] == Entry(r.key, Parsed(r.record));
    }
    forall r | r in back ensures !AccessedNoLater(latest, r) {
      var j := RowsOfIndex(table[p + 1..], r);
      assert table[p + 1 + j] == Entry(r.key, Parsed(r.record));
    }
    AccessOrder();
    older := LastStays(front, latest, back, AccessedNoLater);
    SortedRowsFacts(table);
    forall i | 0 <= i < |older| ensures older[i] != latest {
      assert SortedRows(table)[i] == older[i] && SortedRows(table)[|older|] == latest;
    }
  }

  lemma AccessOrder()
    ensures TotalPreorder(AccessedNoLater)
  {
  }

  /** Rows accessed at the same time are treated in the order of the table. */
  lemma TiesKeepTableOrder(table: Table, r: Row)
    ensures OfRank(SortedRows(table), r, AccessedNoLater) == OfRank(RowsOf(table), r, AccessedNoLater)
  {
    AccessOrder();
    StableSortStable(RowsOf(table), r, AccessedNoLater);
  }

  /** The row that counts as accessed last survives its pass exactly when its size is within the scope's and the
      table's byte cap. */
  lemma LatestSurvivesExactly(table: Table, limits: Limits, p: nat)
    requires UniqueKeys(table) && LatestAt(table, p)
    requires limits.maxEntriesPerScope > 0 && limits.maxBytesPerScope >= 0 && limits.maxBytes >= 0
    ensures var size := table[p].value.record.sizeBytes;
            table[p] in AfterEviction(table, limits) <==> size <= limits.maxBytesPerScope && size <= limits.maxBytes
  {
    var latest := RowAt(table, p);
    var older := LatestIsLast(table, p);
    AfterEvictionMember(table, limits, table[p]);
    SurvivorsLast(older, latest, limits);
    var survivors := Survivors(older + [latest], limits);
    if latest.record.sizeBytes <= limits.maxBytesPerScope {
      assert survivors == survivors[..|survivors| - 1] + [latest];
      DropOldestLast(survivors[..|survivors| - 1], latest, limits.maxBytes);
    } else {
      var k := DropOldestShortestPrefix(survivors, limits.maxBytes);
    }
  }

  /** What stays of `newer` and of `row` does not depend on what is older. */
  lemma {:induction false} SurvivorsSplit(older: seq<Row>, tail: seq<Row>, limits: Limits)
    returns (more: seq<Row>)
    ensures Survivors(older + tail, limits) == more + Survivors(tail, limits)
    ensures forall r :: r in more ==> r in older
    decreases |older|
  {
    if older == [] {
      assert older + tail == tail;
      more := [];
    } else {
      var rest := SurvivorsSplit(older[1..], tail, limits);
      var rows := older + tail;
      assert rows[1..] == older[1..] + tail && rows[0] == older[0];
      assert older == [older[0]] + older[1..];
      if Fits(rows[0], Survivors(rows[1..], limits), limits) {
        more := [older[0]] + rest;
        AppendThree([older[0]], rest, Survivors(tail, limits));
      } else {
        more := rest;
      }
    }
  }

  lemma {:induction false} DropOldestKeeps(more: seq<Row>, row: Row, beside: seq<Row>, maxBytes: int)
    requires row !in more && row !in beside
    ensures row in DropOldest(more + ([row] + beside), maxBytes) <==> Bytes([row] + beside) <= maxBytes
    decreases |more|
  {
    var rows := more + ([row] + beside);
    assert ([row] + beside)[1..] == beside;
    if more == [] {
      assert rows == [row] + beside;
      if Bytes(rows) > maxBytes {
        var k := DropOldestShortestPrefix(beside, maxBytes);
      }
    } else {
      assert rows[1..] == more[1..] + ([row] + beside);
      DropOldestKeeps(more[1..], row, beside, maxBytes);
      BytesAppend(more, [row] + beside);
    }
  }

  lemma SurvivorsOfTail(row: Row, newer: seq<Row>, limits: Limits)
    ensures var beside := Survivors(newer, limits);
            Survivors([row] + newer, limits) == if Fits(row, beside, limits) then [row] + beside else beside
  {
    assert ([row] + newer)[1..] == newer;
  }

  lemma FittingRowKept(older: seq<Row>, row: Row, newer: seq<Row>, limits: Limits)
    requires row !in older && row !in newer
    ensures var beside := Survivors(newer, limits);
            row in DropOldest(Survivors(older + ([row] + newer), limits), limits.maxBytes)
            <==> Fits(row, beside, limits) && Bytes([row] + beside) <= limits.maxBytes
  {
    var beside := Survivors(newer, limits);
    SurvivorsMember(newer, limits);
    SurvivorsOfTail(row, newer, limits);
    var more := SurvivorsSplit(older, [row] + newer, limits);
    if Fits(row, beside, limits) {
      DropOldestKeeps(more, row, beside, limits.maxBytes);
    } else {
      var k := DropOldestShortestPrefix(more + beside, limits.maxBytes);
    }
  }

  /** Any row at all: it survives exactly when it fits its scope beside the newer rows that stay, and they and it
      together fit in the table. */
  lemma RowSurvivesExactly(table: Table, limits: Limits, older: seq<Row>, row: Row, newer: seq<Row>)
    requires UniqueKeys(table) && SortedRows(table) == older + ([row] + newer)
    ensures var beside := Survivors(newer, limits);
            Entry(row.key, Parsed(row.record)) in AfterEviction(table, limits)
            <==> Fits(row, beside, limits) && Bytes([row] + beside) <= limits.maxBytes
  {
    SortedRowsFacts(table);
    SplitDistinct(older, row, newer);
    AfterEvictionMember(table, limits, Entry(row.key, Parsed(row.record)));
    FittingRowKept(older, row, newer, limits);
  }

  /** More rows take more room. */
  lemma FewerBeside(more: seq<Row>, kept: seq<Row>, scope: Text)
    ensures |OfScope(kept, scope)| <= |OfScope(more + kept, scope)|
    ensures Bytes(OfScope(kept, scope)) <= Bytes(OfScope(more + kept, scope))
    ensures Bytes(kept) <= Bytes(more + kept)
  {
    OfScopeAppend(more, kept, scope);
    BytesAppend(OfScope(more, scope), OfScope(kept, scope));
    BytesAppend(more, kept);
  }

  /** Of two rows of one scope the one that stands later in access order outlives the other, unless it is larger. */
  lemma LaterOutlives(table: Table, limits: Limits, before: seq<Row>, older: Row, between: seq<Row>, newer: Row,
                      after: seq<Row>)
    requires UniqueKeys(table)
    requires SortedRows(table) == before + ([older] + (between + ([newer] + after)))
    requires older.record.scope == newer.record.scope && newer.record.sizeBytes <= older.record.sizeBytes
    requires Entry(older.key, Parsed(older.record)) in AfterEviction(table, limits)
    ensures Entry(newer.key, Parsed(newer.record)) in AfterEviction(table, limits)
  {
    var scope, beside := newer.record.scope, Survivors(after, limits);
    var besideOlder := Survivors(between + ([newer] + after), limits);
    RowSurvivesExactly(table, limits, before, older, between + ([newer] + after));
    assert SortedRows(table) == (before + [older] + between) + ([newer] + after);
    RowSurvivesExactly(table, limits, before + [older] + between, newer, after);
    var more := SurvivorsSplit(between, [newer] + after, limits);
    assert ([newer] + after)[1..] == after;
    FewerBeside(more, beside, scope);
    if Fits(newer, beside, limits) {
      FewerBeside(more, [newer] + beside, scope);
      BytesAppend([older], besideOlder);
    }
  }

  lemma TwoPlaces(rows: seq<Row>, i: nat, j: nat)
    requires i < j < |rows|
    ensures rows == rows[..i] + ([rows[i]] + (rows[i + 1..j] + ([rows[j]] + rows[j + 1..])))
  {
    assert rows == rows[..i] + rows[i..];
    assert rows[i..] == [rows[i]] + rows[i + 1..];
    assert rows[i + 1..] == rows[i + 1..j] + rows[j..];
    assert rows[j..] == [rows[j]] + rows[j + 1..];
  }

  /** Where two rows of different access times stand in access order. */
  lemma PlacesInOrder(table: Table, older: Row, newer: Row) returns (i: nat, j: nat)
    requires UniqueKeys(table)
    requires Entry(older.key, Parsed(older.record)) in table && Entry(newer.key, Parsed(newer.record)) in table
    requires older.record.lastAccessedAt < newer.record.lastAccessedAt
    ensures i < j < |SortedRows(table)| && SortedRows(table)[i] == older && SortedRows(table)[j] == newer
  {
    SortedRowsFacts(table);
    var rows := SortedRows(table);
    assert older in rows && newer in rows;
    i :| 0 <= i < |rows| && rows[i] == older;
    j :| 0 <= j < |rows| && rows[j] == newer;
    assert j < i ==> AccessedNoLater(newer, older);
  }

  /** Of two rows of one scope the one accessed later outlives the other, unless it is larger. */
  lemma AccessedLaterOutlives(table: Table, limits: Limits, older: Row, newer: Row)
    requires UniqueKeys(table)
    requires Entry(older.key, Parsed(older.record)) in AfterEviction(table, limits)
    requires Entry(newer.key, Parsed(newer.record)) in table
    requires older.record.lastAccessedAt < newer.record.lastAccessedAt
    requires older.record.scope == newer.record.scope && newer.record.sizeBytes <= older.record.sizeBytes
    ensures Entry(newer.key, Parsed(newer.record)) in AfterEviction(table, limits)
  {
    WithoutMember(table, EvictedKeys(table, limits), Entry(older.key, Parsed(older.record)));
    var i, j := PlacesInOrder(table, older, newer);
    var rows := SortedRows(table);
    TwoPlaces(rows, i, j);
    LaterOutlives(table, limits, rows[..i], older, rows[i + 1..j], newer, rows[j + 1..]);
  }

  /** Two rows of one scope, accessed at the same time: the first one goes when they do not fit together. */
  lemma FirstOfTwoIsLost(table: Table, first: Row, second: Row, limits: Limits)
    requires table == [Entry(first.key, Parsed(first.record)), Entry(second.key, Parsed(second.record))]
    requires first.key != second.key && first.record.scope == second.record.scope
    requires first.record.lastAccessedAt == second.record.lastAccessedAt && limits.maxEntriesPerScope > 0
    requires second.record.sizeBytes <= limits.maxBytesPerScope
    requires first.record.sizeBytes + second.record.sizeBytes > limits.maxBytesPerScope
    ensures UniqueKeys(table) && Entry(first.key, Parsed(first.record)) !in AfterEviction(table, limits)
  {
    TwoRows(table, first, second);
    SurvivorsOfOne(second, limits);
    RowSurvivesExactly(table, limits, [], first, [second]);
  }

  lemma TwoRows(table: Table, first: Row, second: Row)
    requires table == [Entry(first.key, Parsed(first.record)), Entry(second.key, Parsed(second.record))]
    requires first.record.lastAccessedAt == second.record.lastAccessedAt
    ensures SortedRows(table) == [] + ([first] + [second])
  {
    var rest: Table := table[1..];
    assert rest == [Entry(second.key, Parsed(second.record))] && rest[1..] == [];
    assert RowsOf(rest) == [second];
    assert RowsOf(table) == [first] + [second];
    SortTwo(first, second, AccessedNoLater);
  }

  lemma SurvivorsOfOne(row: Row, limits: Limits)
    requires limits.maxEntriesPerScope > 0 && row.record.sizeBytes <= limits.maxBytesPerScope
    ensures Survivors([row], limits) == [row] && OfScope([row], row.record.scope) == [row]
    ensures Bytes([row]) == row.record.sizeBytes
  {
    assert [row][1..] == [];
    assert Survivors([], limits) == [] && OfScope([], row.record.scope) == [] && Bytes([]) == 0;
  }

  lemma SplitDistinct(older: seq<Row>, row: Row, newer: seq<Row>)
    requires DistinctRowKeys(older + ([row] + newer))
    ensures row !in older && row !in newer
  {
    var rows := older + ([row] + newer);
    assert rows[|older|] == row;
    forall i | 0 <= i < |older| ensures older[i] != row {
      assert rows[i] == older[i];
    }
    forall i | 0 <= i < |newer| ensures newer[i] != row {
      assert rows[|older| + 1 + i] == newer[i];
    }
  }

  // ---------------------------------------------------------------- the pass itself

  ghost function CorruptKeys(table: Table): set<Text> {
    set e | e in table && e.value.Corrupt? :: e.key
  }

  lemma CorruptAreNotRows(table: Table)
    requires UniqueKeys(table)
    ensures CorruptKeys(table) !! Keys(SortedRows(table))
    ensures CorruptKeys(table) + Keys(SortedRows(table)) == KeySet(table)
  {
    var rows := SortedRows(table);
    SortedRowsFacts(table);
    forall r | r in rows ensures r.key !in CorruptKeys(table) {
      FindMember(table, Entry(r.key, Parsed(r.record)));
      FindMember(table, Entry(r.key, Corrupt));
    }
    forall key | key in KeySet(table) ensures key in CorruptKeys(table) + Keys(rows) {
      var e :| e in table && e.key == key;
      if e.value.Parsed? {
        assert Row(key, e.value.record) in rows;
      }
    }
    forall key | key in Keys(rows) ensures key in KeySet(table) {
      var r :| r in rows && r.key == key;
      assert Entry(r.key, Parsed(r.record)) in table;
    }
  }

  lemma {:induction false} OfScopeAll(rows: seq<Row>, scope: Text)
    requires forall r :: r in rows ==> r.record.scope == scope
    ensures OfScope(rows, scope) == rows
  {
    if rows != [] {
      OfScopeAll(rows[1..], scope);
    }
  }

  ghost function BytesIn(rows: seq<Row>, scopes: set<Text>): nat {
    if rows == [] then 0
    else (if rows[0].record.scope in scopes then rows[0].record.sizeBytes else 0) + BytesIn(rows[1..], scopes)
  }

  lemma {:induction false} BytesInAdd(rows: seq<Row>, scopes: set<Text>, scope: Text)
    requires scope !in scopes
    ensures BytesIn(rows, scopes + {scope}) == BytesIn(rows, scopes) + Bytes(OfScope(rows, scope))
  {
    if rows != [] {
      BytesInAdd(rows[1..], scopes, scope);
      assert rows == [rows[0]] + rows[1..];
      Prepend(rows[0], rows[1..], scope);
      Prepend(rows[0], OfScope(rows[1..], scope), scope);
    }
  }

  lemma {:induction false} BytesInNone(rows: seq<Row>)
    ensures BytesIn(rows, {}) == 0
  {
    if rows != [] {
      BytesInNone(rows[1..]);
    }
  }

  lemma {:induction false} BytesInAll(rows: seq<Row>, scopes: set<Text>)
    requires forall r :: r in rows ==> r.record.scope in scopes
    ensures BytesIn(rows, scopes) == Bytes(rows)
  {
    if rows != [] {
      BytesInAll(rows[1..], scopes);
    }
  }

  ghost predicate GroupedByScope(rows: seq<Row>, groups: seq<Entry<Text, seq<Row>>>) {
    && UniqueKeys(groups)
    && forall s :: Find(groups, s) == if OfScope(rows, s) == [] then None else Some(OfScope(rows, s))
  }

  lemma AddToGroup(rows: seq<Row>, row: Row, groups: seq<Entry<Text, seq<Row>>>)
    requires GroupedByScope(rows, groups)
    ensures GroupedByScope(rows + [row], Put(groups, row.record.scope, OfScope(rows, row.record.scope) + [row]))
  {
    var list := OfScope(rows, row.record.scope) + [row];
    PutUnique(groups, row.record.scope, list);
    forall s
      ensures Find(Put(groups, row.record.scope, list), s)
              == if OfScope(rows + [row], s) == [] then None else Some(OfScope(rows + [row], s))
    {
      PutFind(groups, row.record.scope, list, s);
      OfScopeAppend(rows, [row], s);
      assert OfScope([row], s) == if s == row.record.scope then [row] else [] by { assert [row][1..] == []; }
      assert OfScope(rows + [row], s) == if s == row.record.scope then list else OfScope(rows, s);
    }
  }

  method ParseRows(table: Table) returns (rows: seq<Row>, corrupt: set<Text>)
    ensures rows == RowsOf(table)
    ensures corrupt == CorruptKeys(table)
  {
    rows, corrupt := [], {};
    for i := 0 to |table|
      invariant rows == RowsOf(table[..i])
      invariant corrupt == CorruptKeys(table[..i])
    {
      assert table[..i + 1] == table[..i] + [table[i]];
      RowsOfAppend(table[..i], table[i]);
      match table[i].value {
        case Parsed(record) => rows := rows + [Row(table[i].key, record)];
        case Corrupt => corrupt := corrupt + {table[i].key};
      }
    }
    assert table[..|table|] == table;
  }

  method GroupByScope(rows: seq<Row>) returns (groups: seq<Entry<Text, seq<Row>>>)
    ensures GroupedByScope(rows, groups)
  {
    groups := [];
    for i := 0 to |rows|
      invariant GroupedByScope(rows[..i], groups)
    {
      var row := rows[i];
      var list := match Find(groups, row.record.scope) case Some(l) => l case None => [];
      assert rows[..i + 1] == rows[..i] + [row];
      AddToGroup(rows[..i], row, groups);
      groups := Put(groups, row.record.scope, list + [row]);
    }
    assert rows[..|rows|] == rows;
  }

  /** One step of `EvictScope`: a row beside the newer rows of its scope. */
  lemma ScopeRowStep(row: Row, newer: seq<Row>, limits: Limits, scope: Text)
    requires row.record.scope == scope && forall r :: r in newer ==> r.record.scope == scope
    requires DistinctRowKeys([row] + newer)
    ensures var all, kept := Survivors([row] + newer, limits), Survivors(newer, limits);
            var fits := |kept| < limits.maxEntriesPerScope
                        && Bytes(kept) + row.record.sizeBytes <= limits.maxBytesPerScope;
            && all == (if fits then [row] + kept else kept)
            && Bytes(all) == Bytes(kept) + (if fits then row.record.sizeBytes else 0)
            && Keys([row] + newer) - Keys(all)
               == (Keys(newer) - Keys(kept)) + (if fits then {} else {row.key})
  {
    var kept := Survivors(newer, limits);
    assert ([row] + newer)[1..] == newer;
    SurvivorsMember(newer, limits);
    OfScopeAll(kept, scope);
    Prepend(row, kept, scope);
    KeysPrepend(row, newer);
    KeysPrepend(row, kept);
    assert row.key !in Keys(newer);
    assert Keys(kept) <= Keys(newer);
  }

  lemma KeysPrepend(row: Row, rows: seq<Row>)
    ensures Keys([row] + rows) == {row.key} + Keys(rows)
    ensures DistinctRowKeys([row] + rows) ==> row.key !in Keys(rows)
  {
    forall r | r in rows ensures DistinctRowKeys([row] + rows) ==> r.key != row.key {
      var i :| 0 <= i < |rows| && rows[i] == r;
      var all := [row] + rows;
      assert all[0] == row && all[i + 1] == r;
    }
  }

  /** One scope, newest row first. */
  method EvictScope(list: seq<Row>, limits: Limits, ghost scope: Text) returns (evict: set<Text>, bytes: nat)
    requires forall r :: r in list ==> r.record.scope == scope
    requires DistinctRowKeys(list)
    ensures evict == Keys(list) - Keys(Survivors(list, limits))
    ensures bytes == Bytes(Survivors(list, limits))
  {
    evict, bytes := {}, 0;
    var count := 0;
    for index := |list| downto 0
      invariant evict == Keys(list[index..]) - Keys(Survivors(list[index..], limits))
      invariant count == |Survivors(list[index..], limits)|
      invariant bytes == Bytes(Survivors(list[index..], limits))
    {
      var row := list[index];
      assert list[index..] == [row] + list[index + 1..];
      ScopeRowStep(row, list[index + 1..], limits, scope);
      if count >= limits.maxEntriesPerScope || bytes + row.record.sizeBytes > limits.maxBytesPerScope {
        evict := evict + {row.key};
        continue;
      }
      count := count + 1;
      bytes := bytes + row.record.sizeBytes;
    }
    assert list[0..] == list;
  }

  /** Among the keys of `rows`, exactly those of rows outside `kept` are in `evict`. */
  ghost predicate EvictsAllBut(evict: set<Text>, rows: seq<Row>, kept: seq<Row>) {
    forall r :: r in rows ==> (r.key in evict <==> r !in kept)
  }

  /** The per-scope loop, which also adds up what stays. */
  method EvictOverScopeCaps(rows: seq<Row>, byScope: seq<Entry<Text, seq<Row>>>, limits: Limits, corrupt: set<Text>)
    returns (evict: set<Text>, totalBytes: nat)
    requires DistinctRowKeys(rows) && GroupedByScope(rows, byScope)
    requires corrupt !! Keys(rows)
    ensures corrupt <= evict <= corrupt + Keys(rows)
    ensures EvictsAllBut(evict, rows, Survivors(rows, limits))
    ensures totalBytes == Bytes(Survivors(rows, limits))
  {
    evict, totalBytes := corrupt, 0;
    ghost var survivors := Survivors(rows, limits);
    ghost var done: set<Text> := {};
    BytesInNone(survivors);
    SurvivorsMember(rows, limits);
    for g := 0 to |byScope|
      invariant done == KeySet(byScope[..g])
      invariant corrupt <= evict <= corrupt + Keys(rows)
      invariant EvictsInScopes(evict, rows, survivors, done)
      invariant totalBytes == BytesIn(survivors, done)
    {
      GroupOfScope(rows, byScope, g);
      var dropped, bytes := EvictScope(byScope[g].value, limits, byScope[g].key);
      ScopeStep(rows, limits, byScope[g].key, done, evict, dropped);
      evict, totalBytes := evict + dropped, totalBytes + bytes;
      done := done + {byScope[g].key};
    }
    assert byScope[..|byScope|] == byScope;
    AllScopesGrouped(rows, byScope);
    BytesInAll(survivors, done);
  }

  ghost predicate EvictsInScopes(evict: set<Text>, rows: seq<Row>, kept: seq<Row>, scopes: set<Text>) {
    forall r :: r in rows ==> (r.key in evict <==> r.record.scope in scopes && r !in kept)
  }

  lemma GroupOfScope(rows: seq<Row>, groups: seq<Entry<Text, seq<Row>>>, g: nat)
    requires GroupedByScope(rows, groups) && g < |groups|
    ensures groups[g].value == OfScope(rows, groups[g].key)
    ensures forall r :: r in groups[g].value ==> r.record.scope == groups[g].key
    ensures DistinctRowKeys(rows) ==> DistinctRowKeys(groups[g].value)
    ensures groups[g].key !in KeySet(groups[..g])
    ensures KeySet(groups[..g + 1]) == KeySet(groups[..g]) + {groups[g].key}
  {
    FindMember(groups, groups[g]);
    OfScopeMembers(rows, groups[g].key);
    assert groups[..g + 1] == groups[..g] + [groups[g]];
  }

  lemma AllScopesGrouped(rows: seq<Row>, groups: seq<Entry<Text, seq<Row>>>)
    requires GroupedByScope(rows, groups)
    ensures forall r :: r in rows ==> r.record.scope in KeySet(groups)
  {
    forall r | r in rows ensures r.record.scope in KeySet(groups) {
      OfScopeMembers(rows, r.record.scope);
      assert Find(groups, r.record.scope).Some?;
    }
  }

  lemma ScopeStep(rows: seq<Row>, limits: Limits, scope: Text, done: set<Text>, evict: set<Text>, dropped: set<Text>)
    requires DistinctRowKeys(rows) && scope !in done
    requires EvictsInScopes(evict, rows, Survivors(rows, limits), done)
    requires dropped == Keys(OfScope(rows, scope)) - Keys(Survivors(OfScope(rows, scope), limits))
    ensures dropped <= Keys(rows)
    ensures EvictsInScopes(evict + dropped, rows, Survivors(rows, limits), done + {scope})
    ensures BytesIn(Survivors(rows, limits), done + {scope})
            == BytesIn(Survivors(rows, limits), done) + Bytes(Survivors(OfScope(rows, scope), limits))
  {
    SurvivorsByScope(rows, limits, scope);
    SurvivorsMember(rows, limits);
    DroppedInScope(rows, Survivors(rows, limits), scope, dropped);
    BytesInAdd(Survivors(rows, limits), done, scope);
  }

  lemma DroppedInScope(rows: seq<Row>, survivors: seq<Row>, scope: Text, dropped: set<Text>)
    requires DistinctRowKeys(rows) && forall r :: r in survivors ==> r in rows
    requires dropped == Keys(OfScope(rows, scope)) - Keys(OfScope(survivors, scope))
    ensures dropped <= Keys(rows)
    ensures forall r :: r in rows ==> (r.key in dropped <==> r.record.scope == scope && r !in survivors)
  {
    OfScopeMembers(rows, scope);
    OfScopeMembers(survivors, scope);
    forall r | r in rows ensures r.key in dropped <==> r.record.scope == scope && r !in survivors {
      if r.key in Keys(OfScope(rows, scope)) {
        var q :| q in OfScope(rows, scope) && q.key == r.key;
        assert q == r;
      }
      if r.key in Keys(OfScope(survivors, scope)) {
        var q :| q in OfScope(survivors, scope) && q.key == r.key;
        assert q == r;
      }
    }
  }

  /** The global loop, oldest row first. */
  method EvictOverTotal(rows: seq<Row>, limits: Limits, bytes: nat, evict0: set<Text>) returns (evict: set<Text>)
    requires DistinctRowKeys(rows) && bytes == Bytes(Survivors(rows, limits))
    requires EvictsAllBut(evict0, rows, Survivors(rows, limits))
    ensures evict0 <= evict <= evict0 + Keys(rows)
    ensures EvictsAllBut(evict, rows, DropOldest(Survivors(rows, limits), limits.maxBytes))
  {
    evict := evict0;
    var totalBytes := bytes;
    var i := 0;
    assert rows[0..] == rows;
    ghost var kept := DropOldest(Survivors(rows, limits), limits.maxBytes);
    while i < |rows|
      invariant 0 <= i <= |rows|
      invariant totalBytes == Bytes(Survivors(rows[i..], limits))
      invariant kept == DropOldest(Survivors(rows[i..], limits), limits.maxBytes)
      invariant evict0 <= evict <= evict0 + Keys(rows)
      invariant EvictsAllBut(evict, rows, Survivors(rows[i..], limits))
    {
      if totalBytes <= limits.maxBytes {
        break;
      }
      var row := rows[i];
      SurvivorsStep(rows, i, limits);
      if row.key !in evict {
        evict := evict + {row.key};
        totalBytes := totalBytes - row.record.sizeBytes;
      }
      i := i + 1;
    }
  }

  /** What the per-scope phase keeps of a suffix is a suffix of what it keeps. */
  lemma SurvivorsStep(rows: seq<Row>, i: nat, limits: Limits)
    requires i < |rows| && DistinctRowKeys(rows)
    ensures var here, next := Survivors(rows[i..], limits), Survivors(rows[i + 1..], limits);
            && (here == next || here == [rows[i]] + next)
            && (rows[i] in here <==> here == [rows[i]] + next)
            && rows[i] !in next
            && (here != next ==> Bytes(here) == rows[i].record.sizeBytes + Bytes(next))
            && (here != next && Bytes(here) > limits.maxBytes
                ==> DropOldest(here, limits.maxBytes) == DropOldest(next, limits.maxBytes))
  {
    var next := Survivors(rows[i + 1..], limits);
    assert rows[i..][0] == rows[i] && rows[i..][1..] == rows[i + 1..];
    assert ([rows[i]] + next)[1..] == next;
    SurvivorsMember(rows[i + 1..], limits);
    assert rows[i] !in rows[i + 1..];
  }

  /** The keys an eviction pass deletes. */
  method EvictQueryCache(table: Table, limits: Limits) returns (evict: set<Text>)
    requires UniqueKeys(table)
    ensures evict == EvictedKeys(table, limits)
  {
    var parsed, corrupt := ParseRows(table);
    var rows := StableSort(parsed, AccessedNoLater);
    SortedRowsFacts(table);
    CorruptAreNotRows(table);
    var byScope := GroupByScope(rows);
    var totalBytes;
    evict, totalBytes := EvictOverScopeCaps(rows, byScope, limits, corrupt);
    evict := EvictOverTotal(rows, limits, totalBytes, evict);
    EvictedExactly(table, limits, evict);
  }

  lemma EvictedExactly(table: Table, limits: Limits, evict: set<Text>)
    requires UniqueKeys(table)
    requires CorruptKeys(table) <= evict <= KeySet(table)
    requires EvictsAllBut(evict, SortedRows(table), Kept(table, limits))
    ensures evict == EvictedKeys(table, limits)
  {
    var rows, kept := SortedRows(table), Kept(table, limits);
    SortedRowsFacts(table);
    CorruptAreNotRows(table);
    KeptFacts(table, limits);
    forall key | key in KeySet(table) ensures key in evict <==> key !in Keys(kept) {
      if key in Keys(kept) {
        var r :| r in kept && r.key == key;
        assert r in rows;
      } else if key in Keys(rows) {
        var r :| r in rows && r.key == key;
        assert r !in kept;
      }
    }
  }
}
