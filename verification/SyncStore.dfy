/** `createKvSyncStore` (packages/client/src/kv-stores.ts): synced collections over a string table,
    one store call at a time. */
module SyncStore {
  import opened Texts
  import opened Options
  import opened OrderedMaps
  import opened Sorting
  import opened StableKeys
  import opened Deltas
  import Json

  datatype Settings = Settings(
    mode: Option<Text>,
    orderBy: Option<Text>,
    orderDirection: Option<Text>,
    maxRows: Option<int>,
    maxBytes: Option<int>,
    hashes: Option<Json.Value>)

  datatype Collection = Collection(
    rows: seq<Json.Value>,
    cursor: Json.Value,
    keyField: Text,
    truncated: Option<bool>,
    settings: Settings)

  datatype Record = Record(collection: Collection, lastAccessedAt: int, sizeBytes: nat)

  /** A stored string, as `parseJson` sees it. */
  datatype Stored = Parsed(record: Record) | Corrupt

  type Table = seq<Entry<Text, Stored>>

  type Row = Entry<Text, Record>

  /** What the backend does during one call; `EvictFails(done)` names the keys the eviction pass had
      deleted before it threw. */
  datatype Fault = Works | GetFails | SetFails | EvictFails(done: set<Text>)

  datatype State = State(table: Table, disabled: bool)

  const DEFAULT_KEY_FIELD: Text := [95, 105, 100]

  // ---------------------------------------------------------------- eviction

  predicate AccessedNoLater(a: Row, b: Row) {
    a.value.lastAccessedAt <= b.value.lastAccessedAt
  }

  function RowsOf(table: Table): seq<Row> {
    if table == [] then []
    else
      (match table[0].value
       case Parsed(record) => [Entry(table[0].key, record)]
       case Corrupt => []) + RowsOf(table[1..])
  }

  function Total(rows: seq<Row>): nat {
    if rows == [] then 0 else rows[0].value.sizeBytes + Total(rows[1..])
  }

  function DropOldest(rows: seq<Row>, maxBytes: int): seq<Row> {
    if rows == [] || Total(rows) <= maxBytes then rows else DropOldest(rows[1..], maxBytes)
  }

  function Remaining(table: Table, maxBytes: int): seq<Row> {
    DropOldest(StableSort(RowsOf(table), AccessedNoLater), maxBytes)
  }

  ghost function EvictedKeys(table: Table, maxBytes: int): set<Text> {
    KeySet(table) - KeySet(Remaining(table, maxBytes))
  }

  ghost function AfterEviction(table: Table, maxBytes: int): Table {
    Without(table, EvictedKeys(table, maxBytes))
  }

  lemma {:induction false} RowsOfMember(table: Table, r: Row)
    ensures r in RowsOf(table) <==> Entry(r.key, Parsed(r.value)) in table
  {
    if table != [] {
      RowsOfMember(table[1..], r);
      assert table == [table[0]] + table[1..];
    }
  }

  lemma {:induction false} RowsOfUnique(table: Table)
    requires UniqueKeys(table)
    ensures UniqueKeys(RowsOf(table))
  {
    if table != [] {
      RowsOfUnique(table[1..]);
      var rest := RowsOf(table[1..]);
      forall j | 0 <= j < |rest| ensures rest[j].key != table[0].key {
        RowsOfMember(table[1..], rest[j]);
      }
    }
  }

  lemma UniqueByMembers(rows: seq<Row>, other: seq<Row>)
    requires UniqueKeys(rows) && multiset(rows) == multiset(other)
    ensures UniqueKeys(other)
  {
    DistinctFromMultiset(rows, other);
    forall i, j | 0 <= i < j < |other| ensures other[i].key != other[j].key {
      assert other[i] in multiset(rows) && other[j] in multiset(rows);
      assert other[i] in rows && other[j] in rows;
    }
  }

  lemma SortedRowsFacts(table: Table)
    requires UniqueKeys(table)
    ensures var rows := StableSort(RowsOf(table), AccessedNoLater);
            && Sorted(rows, AccessedNoLater) && UniqueKeys(rows)
            && multiset(rows) == multiset(RowsOf(table))
            && forall r :: r in rows <==> Entry(r.key, Parsed(r.value)) in table
  {
    var rows := RowsOf(table);
    StableSortSorted(rows, AccessedNoLater);
    StableSortMembers(rows, AccessedNoLater);
    forall r ensures r in rows <==> Entry(r.key, Parsed(r.value)) in table {
      RowsOfMember(table, r);
    }
    RowsOfUnique(table);
    UniqueByMembers(rows, StableSort(rows, AccessedNoLater));
  }

  /** Only the shortest oldest part whose removal brings the rest within `maxBytes` goes. */
  lemma {:induction false} ShortestPrefix(rows: seq<Row>, maxBytes: int) returns (k: nat)
    ensures k <= |rows| && DropOldest(rows, maxBytes) == rows[k..]
    ensures maxBytes >= 0 ==> Total(rows[k..]) <= maxBytes
    ensures forall j :: 0 <= j < k ==> Total(rows[j..]) > maxBytes
  {
    if rows == [] || Total(rows) <= maxBytes {
      k := 0;
    } else {
      var k' := ShortestPrefix(rows[1..], maxBytes);
      k := k' + 1;
      assert rows[k..] == rows[1..][k'..];
      forall j | 0 <= j < k ensures Total(rows[j..]) > maxBytes {
        if j > 0 {
          assert rows[j..] == rows[1..][j - 1..];
        }
      }
    }
  }

  lemma AfterEvictionMember(table: Table, maxBytes: int, e: Entry<Text, Stored>)
    requires UniqueKeys(table)
    ensures e in AfterEviction(table, maxBytes)
            <==> e.value.Parsed? && Entry(e.key, e.value.record) in Remaining(table, maxBytes)
  {
    SortedRowsFacts(table);
    var rows := StableSort(RowsOf(table), AccessedNoLater);
    var k := ShortestPrefix(rows, maxBytes);
    var kept := Remaining(table, maxBytes);
    WithoutMember(table, EvictedKeys(table, maxBytes), e);
    if e in AfterEviction(table, maxBytes) {
      assert e.key in KeySet(table);
      assert e.key in KeySet(kept);
      var r :| r in kept && r.key == e.key;
      assert r in rows;
      FindMember(table, e);
      FindMember(table, Entry(r.key, Parsed(r.value)));
    }
  }

  lemma {:induction false} TotalAppend(rows: seq<Row>, r: Row)
    ensures Total(rows + [r]) == Total(rows) + r.value.sizeBytes
  {
    if rows == [] {
      assert rows + [r] == [r] && [r][1..] == [];
    } else {
      TotalAppend(rows[1..], r);
      assert (rows + [r])[1..] == rows[1..] + [r];
    }
  }

  lemma {:induction false} DropOldestLast(rows: seq<Row>, latest: Row, maxBytes: int)
    requires maxBytes >= 0
    ensures var r := DropOldest(rows + [latest], maxBytes);
            if latest.value.sizeBytes <= maxBytes then r != [] && r[|r| - 1] == latest else r == []
  {
    TotalAppend(rows, latest);
    if rows == [] {
      assert rows + [latest] == [latest] && [latest][1..] == [];
    } else {
      DropOldestLast(rows[1..], latest, maxBytes);
      assert (rows + [latest])[1..] == rows[1..] + [latest];
    }
  }

  lemma {:induction false} RowsOfConcat(a: Table, b: Table)
    ensures RowsOf(a + b) == RowsOf(a) + RowsOf(b)
    decreases |b|
  {
    if b == [] {
      assert a + b == a;
    } else {
      var init, last := b[..|b| - 1], b[|b| - 1];
      RowsOfConcat(a, init);
      RowsOfAppend(a + init, last);
      RowsOfAppend(init, last);
      assert b == init + [last] && a + b == (a + init) + [last];
      assert (RowsOf(a) + RowsOf(init)) + RowsOf([last]) == RowsOf(a) + (RowsOf(init) + RowsOf([last]));
    }
  }

  lemma {:induction false} RowsOfIndex(table: Table, r: Row) returns (j: nat)
    requires r in RowsOf(table)
    ensures j < |table| && table[j] == Entry(r.key, Parsed(r.value))
  {
    if table[0] == Entry(r.key, Parsed(r.value)) {
      j := 0;
    } else {
      var k := RowsOfIndex(table[1..], r);
      j := k + 1;
    }
  }

  function AccessTime(stored: Stored): int {
    match stored case Parsed(record) => record.lastAccessedAt case Corrupt => 0
  }

  /** No row was accessed after the one at `p`, and those accessed at the same time stand before it in the table. */
  ghost predicate LatestAt(table: Table, p: nat) {
    && p < |table| && table[p].value.Parsed?
    && forall j :: 0 <= j < |table| && j != p && table[j].value.Parsed? ==>
         || AccessTime(table[j].value) < AccessTime(table[p].value)
         || (AccessTime(table[j].value) == AccessTime(table[p].value) && j < p)
  }

  function RowAt(table: Table, p: nat): Row
    requires p < |table| && table[p].value.Parsed?
  {
    Entry(table[p].key, table[p].value.record)
  }

  lemma RowsAround(table: Table, p: nat)
    requires p < |table| && table[p].value.Parsed?
    ensures RowsOf(table) == RowsOf(table[..p]) + [RowAt(table, p)] + RowsOf(table[p + 1..])
  {
    var single: Table := [table[p]];
    assert table == table[..p] + (single + table[p + 1..]);
    RowsOfConcat(table[..p], single + table[p + 1..]);
    RowsOfConcat(single, table[p + 1..]);
    assert single[1..] == [] && RowsOf(single) == [RowAt(table, p)];
  }

  lemma LatestIsLast(table: Table, p: nat) returns (older: seq<Row>)
    requires LatestAt(table, p)
    ensures StableSort(RowsOf(table), AccessedNoLater) == older + [RowAt(table, p)]
  {
    var front, latest, back := RowsOf(table[..p]), RowAt(table, p), RowsOf(table[p + 1..]);
    RowsAround(table, p);
    forall r | r in front ensures AccessedNoLater(r, latest) {
      var j := RowsOfIndex(table[..p], r);
      assert table[j] == Entry(r.key, Parsed(r.value));
    }
    forall r | r in back ensures !AccessedNoLater(latest, r) {
      var j := RowsOfIndex(table[p + 1..], r);
      assert table[p + 1 + j] == Entry(r.key, Parsed(r.value));
    }
    older := LastStays(front, latest, back, AccessedNoLater);
  }

  /** The collection that counts as accessed last survives exactly when it fits alone. */
  lemma LatestSurvivesExactly(table: Table, maxBytes: int, p: nat)
    requires UniqueKeys(table) && maxBytes >= 0 && LatestAt(table, p)
    ensures table[p] in AfterEviction(table, maxBytes) <==> table[p].value.record.sizeBytes <= maxBytes
  {
    var older := LatestIsLast(table, p);
    DropOldestLast(older, RowAt(table, p), maxBytes);
    AfterEvictionMember(table, maxBytes, table[p]);
  }

  /** Listing the table: rows that parse, and the keys of those that do not. */
  method ParseTable(table: Table) returns (rows: seq<Row>, corrupt: set<Text>)
    requires UniqueKeys(table)
    ensures rows == RowsOf(table) && corrupt == KeySet(table) - KeySet(rows)
  {
    rows, corrupt := [], {};
    for i := 0 to |table|
      invariant rows == RowsOf(table[..i])
      invariant corrupt == KeySet(table[..i]) - KeySet(rows)
    {
      RowsOfAppend(table[..i], table[i]);
      KeysOfPrefix(table, i);
      assert table[..i + 1] == table[..i] + [table[i]];
      match table[i].value {
        case Parsed(record) =>
          rows := rows + [Entry(table[i].key, record)];
        case Corrupt => corrupt := corrupt + {table[i].key};
      }
    }
    assert table[..|table|] == table;
  }

  method TotalSize(rows: seq<Row>) returns (total: nat)
    ensures total == Total(rows)
  {
    total := 0;
    for i := 0 to |rows|
      invariant total == Total(rows[..i])
    {
      assert rows[..i + 1] == rows[..i] + [rows[i]];
      TotalAppend(rows[..i], rows[i]);
      total := total + rows[i].value.sizeBytes;
    }
    assert rows[..|rows|] == rows;
  }

  /** Oldest first, until the rest fits. */
  method EvictOldest(rows: seq<Row>, maxBytes: int) returns (evict: set<Text>)
    requires UniqueKeys(rows)
    ensures evict == KeySet(rows) - KeySet(DropOldest(rows, maxBytes))
  {
    var total := TotalSize(rows);
    evict := {};
    var next := 0;
    while next < |rows| && total > maxBytes
      invariant 0 <= next <= |rows|
      invariant total == Total(rows[next..])
      invariant DropOldest(rows, maxBytes) == DropOldest(rows[next..], maxBytes)
      invariant evict == KeySet(rows[..next])
    {
      assert rows[next..][0] == rows[next] && rows[next..][1..] == rows[next + 1..];
      assert rows[..next + 1] == rows[..next] + [rows[next]];
      evict := evict + {rows[next].key};
      total := total - rows[next].value.sizeBytes;
      next := next + 1;
    }
    SplitKeys(rows, next);
  }

  method EvictSyncCollections(table: Table, maxBytes: int) returns (evict: set<Text>)
    requires UniqueKeys(table)
    ensures evict == EvictedKeys(table, maxBytes)
  {
    var parsed, corrupt := ParseTable(table);
    var rows := StableSort(parsed, AccessedNoLater);
    SortedRowsFacts(table);
    SameKeys(parsed, rows);
    RowKeysInTable(table);
    var oldest := EvictOldest(rows, maxBytes);
    var k := ShortestPrefix(rows, maxBytes);
    SplitKeys(rows, k);
    evict := corrupt + oldest;
  }

  lemma {:induction false} RowsOfAppend(table: Table, e: Entry<Text, Stored>)
    ensures RowsOf(table + [e]) == RowsOf(table) + RowsOf([e])
  {
    if table == [] {
      assert table + [e] == [e];
    } else {
      RowsOfAppend(table[1..], e);
      assert (table + [e])[1..] == table[1..] + [e];
    }
  }

  lemma KeysOfPrefix(table: Table, i: nat)
    requires UniqueKeys(table) && i < |table|
    ensures KeySet(table[..i + 1]) == KeySet(table[..i]) + {table[i].key}
    ensures table[i].key !in KeySet(table[..i])
    ensures KeySet(RowsOf(table[..i])) <= KeySet(table[..i])
  {
    assert table[..i + 1] == table[..i] + [table[i]];
    forall r | r in RowsOf(table[..i]) ensures r.key in KeySet(table[..i]) {
      RowsOfMember(table[..i], r);
    }
  }

  lemma SameKeys(a: seq<Row>, b: seq<Row>)
    requires multiset(a) == multiset(b)
    ensures KeySet(a) == KeySet(b)
  {
    forall r: Row ensures r in a <==> r in b {
      assert r in a <==> r in multiset(a);
      assert r in b <==> r in multiset(b);
    }
  }

  lemma SplitKeys(rows: seq<Row>, n: nat)
    requires UniqueKeys(rows) && n <= |rows|
    ensures KeySet(rows) == KeySet(rows[..n]) + KeySet(rows[n..])
    ensures KeySet(rows[..n]) !! KeySet(rows[n..])
  {
    assert rows == rows[..n] + rows[n..];
  }

  lemma RowKeysInTable(table: Table)
    requires UniqueKeys(table)
    ensures KeySet(StableSort(RowsOf(table), AccessedNoLater)) <= KeySet(table)
  {
    SortedRowsFacts(table);
  }

  // ---------------------------------------------------------------- calls as functions of the state

  datatype Change = Change(table: Table, fails: bool)

  function Found(table: Table, key: Text): Option<Record> {
    var stored: Option<Stored> := Find(table, key);
    match stored
    case Some(Parsed(record)) => Some(record)
    case _ => None
  }

  function NewRecord(value: Collection, now: int): Record {
    Record(value, now, Json.JsonSize(Json.Arr(value.rows)))
  }

  /** `persist`: write the record, then evict. */
  ghost function Persisted(table: Table, key: Text, value: Collection, maxBytes: int, now: int, fault: Fault): Change {
    var t := Put(table, key, Parsed(NewRecord(value, now)));
    match fault
    case SetFails => Change(table, true)
    case EvictFails(done) => Change(Without(t, EvictedKeys(t, maxBytes) * done), true)
    case _ => Change(AfterEviction(t, maxBytes), false)
  }

  function Or<T>(first: Option<T>, second: Option<T>): Option<T> {
    if first.Some? then first else second
  }

  function MergeSettings(value: Settings, existing: Option<Record>): Settings {
    match existing
    case None => value
    case Some(r) =>
      var s := r.collection.settings;
      Settings(Or(value.mode, s.mode), Or(value.orderBy, s.orderBy), Or(value.orderDirection, s.orderDirection),
               Or(value.maxRows, s.maxRows), Or(value.maxBytes, s.maxBytes), Or(value.hashes, s.hashes))
  }

  /** `value.keyField || existing?.keyField || "_id"` */
  function KeyFieldFor(keyField: Text, existing: Option<Record>): Text {
    if keyField != [] then keyField
    else if existing.Some? && existing.value.collection.keyField != [] then existing.value.collection.keyField
    else DEFAULT_KEY_FIELD
  }

  function StoredRows(existing: Option<Record>): seq<Json.Value> {
    match existing case Some(r) => r.collection.rows case None => []
  }

  /** The collection a delta produces. */
  function DeltaCollection(existing: Option<Record>, d: Delta, cursor: Json.Value, keyField: Text,
                           truncated: Option<bool>, settings: Settings): Collection {
    var field := KeyFieldFor(keyField, existing);
    Collection(ApplyDelta(StoredRows(existing), d, field), cursor, field, truncated,
               MergeSettings(settings, existing))
  }

  // ---------------------------------------------------------------- the store

  class KvSyncStore {
    const maxBytes: int
    var table: Table
    var disabled: bool

    ghost predicate Valid()
      reads this
    {
      UniqueKeys(table) && maxBytes > 0
    }

    constructor (stored: Table, limit: int)
      requires UniqueKeys(stored) && limit > 0
      ensures Valid() && table == stored && !disabled && maxBytes == limit
    {
      maxBytes, table, disabled := limit, stored, false;
    }

    method Persist(key: Text, value: Collection, now: int, fault: Fault)
      requires Valid()
      modifies this
      ensures Valid()
      ensures var change := Persisted(old(table), key, value, maxBytes, now, fault);
              table == change.table && disabled == (old(disabled) || change.fails)
    {
      if fault.SetFails? {
        disabled := true;
        return;
      }
      var record := Parsed(Record(value, now, Json.JsonSize(Json.Arr(value.rows))));
      PutUnique(table, key, record);
      table := Put(table, key, record);
      var evict := EvictSyncCollections(table, maxBytes);
      if fault.EvictFails? {
        evict := evict * fault.done;
        disabled := true;
      }
      WithoutUnique(table, evict);
      table := Without(table, evict);
    }

    /** Loading touches the record and returns the collection without its bookkeeping. */
    method Load(scope: Text, path: Text, args: Json.Value, now: int, fault: Fault) returns (r: Option<Collection>)
      requires Valid()
      modifies this
      ensures Valid()
      ensures var found := Found(old(table), StorageKey(scope, path, args));
              if old(disabled) || scope == [] then r == None && table == old(table) && disabled == old(disabled)
              else if fault.GetFails? || (found.Some? && fault.SetFails?) then
                r == None && table == old(table) && disabled
              else if found.None? then r == None && table == old(table) && !disabled
              else r == Some(found.value.collection) && !disabled
                   && table == Put(old(table), StorageKey(scope, path, args),
                                   Parsed(found.value.(lastAccessedAt := now)))
    {
      if disabled || scope == [] {
        return None;
      }
      var key := StorageKey(scope, path, args);
      if fault.GetFails? {
        disabled := true;
        return None;
      }
      var existing := Found(table, key);
      if existing.None? {
        return None;
      }
      if fault.SetFails? {
        disabled := true;
        return None;
      }
      var record := existing.value.(lastAccessedAt := now);
      PutUnique(table, key, Parsed(record));
      table := Put(table, key, Parsed(record));
      return Some(record.collection);
    }

    /** A full write; with `rowsUnchanged` an existing record keeps its rows and takes the rest. */
    method Replace(scope: Text, path: Text, args: Json.Value, value: Collection, rowsUnchanged: bool,
                   now: int, fault: Fault)
      requires Valid()
      modifies this
      ensures Valid()
      ensures var key := StorageKey(scope, path, args);
              var found := Found(old(table), key);
              var kept := if rowsUnchanged && found.Some? then value.(rows := found.value.collection.rows) else value;
              var change := Persisted(old(table), key, kept, maxBytes, now, fault);
              if old(disabled) || scope == [] then table == old(table) && disabled == old(disabled)
              else if rowsUnchanged && fault.GetFails? then table == old(table) && disabled
              else table == change.table && disabled == change.fails
    {
      if disabled || scope == [] {
        return;
      }
      var key := StorageKey(scope, path, args);
      if rowsUnchanged {
        if fault.GetFails? {
          disabled := true;
          return;
        }
        var existing := Found(table, key);
        if existing.Some? {
          Persist(key, value.(rows := existing.value.collection.rows), now, fault);
          return;
        }
      }
      Persist(key, value, now, fault);
    }

    method ApplyDelta(scope: Text, path: Text, args: Json.Value, d: Delta, cursor: Json.Value, keyField: Text,
                      truncated: Option<bool>, settings: Settings, now: int, fault: Fault)
      requires Valid()
      modifies this
      ensures Valid()
      ensures var key := StorageKey(scope, path, args);
              var value := DeltaCollection(Found(old(table), key), d, cursor, keyField, truncated, settings);
              var change := Persisted(old(table), key, value, maxBytes, now, fault);
              if old(disabled) || scope == [] then table == old(table) && disabled == old(disabled)
              else if fault.GetFails? then table == old(table) && disabled
              else table == change.table && disabled == change.fails
    {
      if disabled || scope == [] {
        return;
      }
      var key := StorageKey(scope, path, args);
      if fault.GetFails? {
        disabled := true;
        return;
      }
      var existing := Found(table, key);
      var field := KeyFieldFor(keyField, existing);
      var rows := MergeRows(StoredRows(existing), d, field);
      Persist(key, Collection(rows, cursor, field, truncated, MergeSettings(settings, existing)), now, fault);
    }
  }

  /** The filter, the keyed copy of the kept rows and the overlay of the upserts. */
  method MergeRows(stored: seq<Json.Value>, d: Delta, keyField: Text) returns (rows: seq<Json.Value>)
    ensures rows == Deltas.ApplyDelta(stored, d, keyField)
  {
    var kept := KeepRows(stored, d.deleted, keyField);
    var byKey := KeyRows(kept, keyField);
    byKey := OverlayRows(byKey, d.upserts, keyField);
    PutAllAppend([], kept, Identified(d.upserts, keyField), keyField);
    rows := Values(byKey);
  }

  method KeepRows(stored: seq<Json.Value>, deleted: set<Text>, keyField: Text) returns (kept: seq<Json.Value>)
    ensures kept == Kept(stored, deleted, keyField)
  {
    kept := [];
    for i := 0 to |stored|
      invariant kept == Kept(stored[..i], deleted, keyField)
    {
      assert stored[..i + 1] == stored[..i] + [stored[i]];
      KeptAppend(stored[..i], [stored[i]], deleted, keyField);
      KeptPrepend(stored[i], [], deleted, keyField);
      assert [stored[i]] + [] == [stored[i]];
      if RowKey(stored[i], keyField) !in deleted {
        kept := kept + [stored[i]];
      }
    }
    assert stored[..|stored|] == stored;
  }

  method KeyRows(kept: seq<Json.Value>, keyField: Text) returns (byKey: Keyed)
    ensures byKey == PutAll([], kept, keyField)
  {
    byKey := [];
    for i := 0 to |kept|
      invariant byKey == PutAll([], kept[..i], keyField)
    {
      PutAllNext([], kept, i, keyField);
      byKey := Put(byKey, RowKey(kept[i], keyField), kept[i]);
    }
    assert kept[..|kept|] == kept;
  }

  method OverlayRows(base: Keyed, upserts: seq<Json.Value>, keyField: Text) returns (byKey: Keyed)
    ensures byKey == PutAll(base, Identified(upserts, keyField), keyField)
  {
    byKey := base;
    for i := 0 to |upserts|
      invariant byKey == PutAll(base, Identified(upserts[..i], keyField), keyField)
    {
      var upsert := upserts[i];
      var id := RowKey(upsert, keyField);
      IdentifiedNext(upserts, i, keyField);
      if id == [] {
        continue;
      }
      PutAllAppend(base, Identified(upserts[..i], keyField), [upsert], keyField);
      assert [upsert][1..] == [];
      byKey := Put(byKey, id, upsert);
    }
    assert upserts[..|upserts|] == upserts;
  }

  lemma PutAllNext(m: Keyed, rows: seq<Json.Value>, i: nat, keyField: Text)
    requires i < |rows|
    ensures PutAll(m, rows[..i + 1], keyField)
            == Put(PutAll(m, rows[..i], keyField), RowKey(rows[i], keyField), rows[i])
  {
    assert rows[..i + 1] == rows[..i] + [rows[i]];
    assert [rows[i]][1..] == [];
    PutAllAppend(m, rows[..i], [rows[i]], keyField);
  }

  lemma IdentifiedNext(rows: seq<Json.Value>, i: nat, keyField: Text)
    requires i < |rows|
    ensures Identified(rows[..i + 1], keyField)
            == if RowKey(rows[i], keyField) == [] then Identified(rows[..i], keyField)
               else Identified(rows[..i], keyField) + [rows[i]]
  {
    assert rows[..i + 1] == rows[..i] + [rows[i]];
    KeptAppend(rows[..i], [rows[i]], {[]}, keyField);
    KeptPrepend(rows[i], [], {[]}, keyField);
    assert [rows[i]] + [] == [rows[i]];
  }

  // ---------------------------------------------------------------- results about the store

  /** No other collection was accessed later, and those accessed at the same time stand before the key's own place:
      its old one, or the end. */
  ghost predicate AccessedBefore(table: Table, key: Text, now: int) {
    forall j :: 0 <= j < |table| && table[j].value.Parsed? && table[j].key != key ==>
      || AccessTime(table[j].value) < now
      || (AccessTime(table[j].value) == now && forall i :: 0 <= i < |table| && table[i].key == key ==> j < i)
  }

  lemma NewestIsLatest(table: Table, key: Text, record: Record) returns (p: nat)
    requires UniqueKeys(table) && AccessedBefore(table, key, record.lastAccessedAt)
    ensures var t := Put(table, key, Parsed(record));
            LatestAt(t, p) && t[p] == Entry(key, Parsed(record))
  {
    p := PutPlace(table, key, Parsed(record));
    var t := Put(table, key, Parsed(record));
    forall j | 0 <= j < |t| && j != p && t[j].value.Parsed?
      ensures AccessTime(t[j].value) < record.lastAccessedAt
              || (AccessTime(t[j].value) == record.lastAccessedAt && j < p)
    {
      assert t[j] == table[j];
      assert p == |table| ==> table[j].key in KeySet(table);
    }
  }

  /** What was just persisted is found again exactly when it fits in `maxBytes` on its own, provided it counts as
      accessed last. */
  lemma PersistedSurvivesExactly(table: Table, key: Text, value: Collection, maxBytes: int, now: int)
    requires UniqueKeys(table) && maxBytes > 0 && AccessedBefore(table, key, now)
    ensures Found(Persisted(table, key, value, maxBytes, now, Works).table, key) == Some(NewRecord(value, now))
            <==> Json.JsonSize(Json.Arr(value.rows)) <= maxBytes
  {
    var stored := Parsed(NewRecord(value, now));
    var t := Put(table, key, stored);
    PutUnique(table, key, stored);
    var p := NewestIsLatest(table, key, NewRecord(value, now));
    LatestSurvivesExactly(t, maxBytes, p);
    WithoutUnique(t, EvictedKeys(t, maxBytes));
    FindMember(AfterEviction(t, maxBytes), Entry(key, stored));
  }

  /** Two deltas in a row leave the same rows as their combination, when both name the key field of the
      stored collection or none and the intermediate result is still there. */
  lemma StoredDeltasCompose(existing: Option<Record>, d1: Delta, d2: Delta, cursor1: Json.Value, cursor2: Json.Value,
                            keyField: Text, truncated1: Option<bool>, truncated2: Option<bool>,
                            settings: Settings, now: int)
    ensures var first := DeltaCollection(existing, d1, cursor1, keyField, truncated1, settings);
            var field := KeyFieldFor(keyField, existing);
            DeltaCollection(Some(NewRecord(first, now)), d2, cursor2, keyField, truncated2, settings)
            == DeltaCollection(existing, Combine(d1, d2, field), cursor2, keyField, truncated2, settings)
  {
    DeltasCompose(StoredRows(existing), d1, d2, KeyFieldFor(keyField, existing));
  }

  /** The table after a delta has been applied to the collection under `key`. */
  ghost function AfterDeltaCall(table: Table, key: Text, d: Delta, cursor: Json.Value, keyField: Text,
                                truncated: Option<bool>, settings: Settings, maxBytes: int, now: int): Table {
    Persisted(table, key, DeltaCollection(Found(table, key), d, cursor, keyField, truncated, settings), maxBytes, now,
              Works).table
  }

  /** What a delta call leaves under its key when it fits: the rows, told by their key fields, with the cursor and the
      mark given; the key field given, else the stored one, else `_id`. */
  lemma StoredDeltaRows(table: Table, key: Text, d: Delta, cursor: Json.Value, keyField: Text, truncated: Option<bool>,
                        settings: Settings, maxBytes: int, now: int, k: Text, x: Json.Value)
    requires UniqueKeys(table) && maxBytes > 0 && AccessedBefore(table, key, now)
    requires var value := DeltaCollection(Found(table, key), d, cursor, keyField, truncated, settings);
             Json.JsonSize(Json.Arr(value.rows)) <= maxBytes
    requires Proper(StoredRows(Found(table, key))) && Proper(d.upserts) && Proper([x])
    ensures var was := Found(table, key);
            var next := AfterDeltaCall(table, key, d, cursor, keyField, truncated, settings, maxBytes, now);
            var after := Found(next, key);
            && after.Some? && after.value.lastAccessedAt == now
            && var c := after.value.collection;
               && c.cursor == cursor && c.truncated == truncated
               && (keyField != [] ==> c.keyField == keyField)
               && (keyField == [] && was.Some? && was.value.collection.keyField != [] ==>
                     c.keyField == was.value.collection.keyField)
               && (keyField == [] && (was.None? || was.value.collection.keyField == []) ==>
                     c.keyField == [95, 105, 100])
               && (k != [] && HasKey(x, c.keyField, k) ==>
                     (x in c.rows <==> Left(StoredRows(was), d, c.keyField, k, x)))
               && (Keyless(x, c.keyField) ==>
                     (x in c.rows <==> [] !in d.deleted
                                       && exists i: nat :: LastKeyless(StoredRows(was), i, c.keyField)
                                                           && StoredRows(was)[i] == x))
  {
    var was := Found(table, key);
    var value := DeltaCollection(was, d, cursor, keyField, truncated, settings);
    PersistedSurvivesExactly(table, key, value, maxBytes, now);
    if k != [] && HasKey(x, value.keyField, k) {
      KeyedRowsExactly(StoredRows(was), d, value.keyField, k, x);
    }
    if Keyless(x, value.keyField) {
      KeylessRowsExactly(StoredRows(was), d, value.keyField, x);
    }
  }

  /** A setting that the delta names is taken; one that it does not name stays as it was stored. */
  lemma SettingsOverlaid(settings: Settings, existing: Option<Record>)
    ensures var r := MergeSettings(settings, existing);
            var s := if existing.Some? then existing.value.collection.settings
                     else Settings(None, None, None, None, None, None);
            && (if settings.mode.Some? then r.mode == settings.mode else r.mode == s.mode)
            && (if settings.orderBy.Some? then r.orderBy == settings.orderBy else r.orderBy == s.orderBy)
            && (if settings.orderDirection.Some? then r.orderDirection == settings.orderDirection
                else r.orderDirection == s.orderDirection)
            && (if settings.maxRows.Some? then r.maxRows == settings.maxRows else r.maxRows == s.maxRows)
            && (if settings.maxBytes.Some? then r.maxBytes == settings.maxBytes else r.maxBytes == s.maxBytes)
            && (if settings.hashes.Some? then r.hashes == settings.hashes else r.hashes == s.hashes)
  {
  }

  /** Two calls, each with its eviction pass: when what the first one leaves fits, the second one leaves the
      collection of the combined delta, again exactly when that fits. */
  lemma TwoDeltaCalls(table: Table, key: Text, d1: Delta, d2: Delta, cursor1: Json.Value, cursor2: Json.Value,
                      keyField: Text, truncated1: Option<bool>, truncated2: Option<bool>, settings: Settings,
                      maxBytes: int, now1: int, now2: int)
    requires UniqueKeys(table) && maxBytes > 0 && AccessedBefore(table, key, now1)
    requires var first := DeltaCollection(Found(table, key), d1, cursor1, keyField, truncated1, settings);
             Json.JsonSize(Json.Arr(first.rows)) <= maxBytes
    requires var next := AfterDeltaCall(table, key, d1, cursor1, keyField, truncated1, settings, maxBytes, now1);
             AccessedBefore(next, key, now2)
    ensures var next := AfterDeltaCall(table, key, d1, cursor1, keyField, truncated1, settings, maxBytes, now1);
            var last := AfterDeltaCall(next, key, d2, cursor2, keyField, truncated2, settings, maxBytes, now2);
            var both := DeltaCollection(Found(table, key), Combine(d1, d2, KeyFieldFor(keyField, Found(table, key))),
                                        cursor2, keyField, truncated2, settings);
            Found(last, key) == Some(NewRecord(both, now2)) <==> Json.JsonSize(Json.Arr(both.rows)) <= maxBytes
  {
    var existing := Found(table, key);
    var first := DeltaCollection(existing, d1, cursor1, keyField, truncated1, settings);
    var next := AfterDeltaCall(table, key, d1, cursor1, keyField, truncated1, settings, maxBytes, now1);
    PersistedSurvivesExactly(table, key, first, maxBytes, now1);
    PersistedUnique(table, key, first, maxBytes, now1);
    StoredDeltasCompose(existing, d1, d2, cursor1, cursor2, keyField, truncated1, truncated2, settings, now1);
    var second := DeltaCollection(Found(next, key), d2, cursor2, keyField, truncated2, settings);
    PersistedSurvivesExactly(next, key, second, maxBytes, now2);
  }

  lemma PersistedUnique(table: Table, key: Text, value: Collection, maxBytes: int, now: int)
    requires UniqueKeys(table)
    ensures UniqueKeys(Persisted(table, key, value, maxBytes, now, Works).table)
  {
    var t := Put(table, key, Parsed(NewRecord(value, now)));
    PutUnique(table, key, Parsed(NewRecord(value, now)));
    WithoutUnique(t, EvictedKeys(t, maxBytes));
  }
}
