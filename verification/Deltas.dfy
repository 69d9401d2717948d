/** The row arithmetic of `applyDelta` (packages/client/src/kv-stores.ts): stored rows minus the
    deleted ones, overlaid by the upserts, by row key. */
module Deltas {
  import opened Texts
  import opened Options
  import opened OrderedMaps
  import opened Json

  datatype Delta = Delta(upserts: seq<Value>, deleted: set<Text>)

  type Keyed = seq<Entry<Text, Value>>

  function MemberOf(ms: seq<Member>, key: Text): Option<Value> {
    if ms == [] then None else if ms[0].key == key then Some(ms[0].value) else MemberOf(ms[1..], key)
  }

  /** A row's key: its key field when that is a string or a number, otherwise empty. */
  function RowKey(row: Value, keyField: Text): Text {
    match row
    case Obj(ms) =>
      (match MemberOf(ms, keyField)
       case Some(v) => if v.Str? then v.s else if v.Num? then v.text else []
       case None => [])
    case _ => []
  }

  /** The rows whose key is not deleted. */
  function Kept(rows: seq<Value>, deleted: set<Text>, keyField: Text): seq<Value> {
    if rows == [] then []
    else (if RowKey(rows[0], keyField) in deleted then [] else [rows[0]]) + Kept(rows[1..], deleted, keyField)
  }

  /** The rows that have a key. */
  function Identified(rows: seq<Value>, keyField: Text): seq<Value> {
    Kept(rows, {[]}, keyField)
  }

  function PutAll(m: Keyed, rows: seq<Value>, keyField: Text): Keyed
    decreases |rows|
  {
    if rows == [] then m
    else PutAll(Put(m, RowKey(rows[0], keyField), rows[0]), rows[1..], keyField)
  }

  function Values(m: Keyed): (r: seq<Value>)
    ensures |r| == |m| && forall i :: 0 <= i < |m| ==> r[i] == m[i].value
  {
    if m == [] then [] else [m[0].value] + Values(m[1..])
  }

  /** The keyed rows after a delta. */
  function AfterDelta(stored: seq<Value>, d: Delta, keyField: Text): Keyed {
    PutAll([], Kept(stored, d.deleted, keyField) + Identified(d.upserts, keyField), keyField)
  }

  function ApplyDelta(stored: seq<Value>, d: Delta, keyField: Text): seq<Value> {
    Values(AfterDelta(stored, d, keyField))
  }

  // ---------------------------------------------------------------- what the rows are

  /** The last row with key `k`. */
  function LastOf(rows: seq<Value>, k: Text, keyField: Text): Option<Value> {
    if rows == [] then None
    else if RowKey(rows[|rows| - 1], keyField) == k then Some(rows[|rows| - 1])
    else LastOf(rows[..|rows| - 1], k, keyField)
  }

  /** The keys of the rows, each where it first occurs. */
  function FirstKeys(rows: seq<Value>, keyField: Text): seq<Text> {
    if rows == [] then []
    else
      var before, k := FirstKeys(rows[..|rows| - 1], keyField), RowKey(rows[|rows| - 1], keyField);
      if k in before then before else before + [k]
  }

  function KeySeq(m: Keyed): (r: seq<Text>)
    ensures |r| == |m| && forall i :: 0 <= i < |m| ==> r[i] == m[i].key
  {
    if m == [] then [] else [m[0].key] + KeySeq(m[1..])
  }

  /** Every entry is filed under its row's key. */
  ghost predicate FiledByKey(m: Keyed, keyField: Text) {
    forall e :: e in m ==> e.key == RowKey(e.value, keyField)
  }

  lemma {:induction false} PutAllAppend(m: Keyed, a: seq<Value>, b: seq<Value>, keyField: Text)
    ensures PutAll(m, a + b, keyField) == PutAll(PutAll(m, a, keyField), b, keyField)
    decreases |a|
  {
    if a == [] {
      assert a + b == b;
    } else {
      PutAllAppend(Put(m, RowKey(a[0], keyField), a[0]), a[1..], b, keyField);
      assert (a + b)[1..] == a[1..] + b;
    }
  }

  lemma {:induction false} PutKeySeq(m: Keyed, k: Text, v: Value)
    ensures KeySeq(Put(m, k, v)) == if k in KeySeq(m) then KeySeq(m) else KeySeq(m) + [k]
  {
    if m != [] {
      assert KeySeq(m) == [m[0].key] + KeySeq(m[1..]);
      if m[0].key != k {
        PutKeySeq(m[1..], k, v);
        assert Put(m, k, v)[1..] == Put(m[1..], k, v);
      } else {
        assert Put(m, k, v)[1..] == m[1..];
      }
    }
  }

  lemma {:induction false} PutAllIs(rows: seq<Value>, keyField: Text)
    ensures var m := PutAll([], rows, keyField);
            && KeySeq(m) == FirstKeys(rows, keyField)
            && UniqueKeys(m) && FiledByKey(m, keyField)
            && forall k :: Find(m, k) == LastOf(rows, k, keyField)
  {
    if rows != [] {
      var n := |rows| - 1;
      var front, row, k := rows[..n], rows[n], RowKey(rows[n], keyField);
      PutAllIs(front, keyField);
      assert rows == front + [row];
      PutAllAppend([], front, [row], keyField);
      var m := PutAll([], front, keyField);
      assert PutAll([], rows, keyField) == Put(m, k, row) by { assert [row][1..] == []; }
      PutUnique(m, k, row);
      PutKeySeq(m, k, row);
      forall x ensures Find(Put(m, k, row), x) == LastOf(rows, x, keyField) {
        PutFind(m, k, row, x);
      }
      forall e | e in Put(m, k, row) ensures e.key == RowKey(e.value, keyField) {
        PutMember(m, k, row, e);
      }
    }
  }

  /** The result of a delta holds, for every key that occurs among the stored rows left after
      deletion or among the upserts that have a key, the last of these rows with that key; the keys
      stand in the order in which they first occur there. */
  lemma DeltaResult(stored: seq<Value>, d: Delta, keyField: Text)
    ensures var rows := Kept(stored, d.deleted, keyField) + Identified(d.upserts, keyField);
            var r := ApplyDelta(stored, d, keyField);
            var keys := FirstKeys(rows, keyField);
            && |r| == |keys|
            && (forall i :: 0 <= i < |r| ==> RowKey(r[i], keyField) == keys[i])
            && (forall i :: 0 <= i < |r| ==> LastOf(rows, keys[i], keyField) == Some(r[i]))
            && (forall i, j :: 0 <= i < j < |r| ==> RowKey(r[i], keyField) != RowKey(r[j], keyField))
  {
    var rows := Kept(stored, d.deleted, keyField) + Identified(d.upserts, keyField);
    var m := PutAll([], rows, keyField);
    PutAllIs(rows, keyField);
    forall i | 0 <= i < |m|
      ensures RowKey(m[i].value, keyField) == FirstKeys(rows, keyField)[i]
      ensures LastOf(rows, m[i].key, keyField) == Some(m[i].value)
    {
      assert KeySeq(m)[i] == m[i].key;
      FindMember(m, m[i]);
      assert m[i] in m;
    }
  }

  // ---------------------------------------------------------------- which rows the result holds

  /** The row is an object whose key field prints as `k`: the string `k` itself, or a number with that text. */
  predicate HasKey(row: Value, keyField: Text, k: Text) {
    row.Obj? && (Member(keyField, Str(k)) in row.members || Member(keyField, Num(k)) in row.members)
  }

  /** Rows as a store holds them: an object has each key once. */
  ghost predicate Proper(rows: seq<Value>) {
    forall i :: 0 <= i < |rows| && rows[i].Obj? ==> DistinctKeys(rows[i].members)
  }

  lemma {:induction false} MemberFound(ms: seq<Member>, key: Text, v: Value)
    requires DistinctKeys(ms)
    ensures MemberOf(ms, key) == Some(v) <==> Member(key, v) in ms
  {
    if ms != [] {
      MemberFound(ms[1..], key, v);
      assert forall m :: m in ms <==> m == ms[0] || m in ms[1..];
      forall m | m in ms[1..] ensures m.key != ms[0].key {
        var i :| 0 <= i < |ms[1..]| && ms[1..][i] == m;
        assert ms[i + 1] == m;
      }
    }
  }

  /** The key of a row with a key field that prints as a text that is not empty is that text; it is empty exactly when
      there is no such field. */
  lemma RowKeyMeaning(row: Value, keyField: Text, k: Text)
    requires row.Obj? ==> DistinctKeys(row.members)
    ensures k != [] ==> (RowKey(row, keyField) == k <==> HasKey(row, keyField, k))
  {
    if row.Obj? {
      MemberFound(row.members, keyField, Str(k));
      MemberFound(row.members, keyField, Num(k));
    }
  }

  lemma {:induction false} LastOfNone(rows: seq<Value>, k: Text, keyField: Text)
    ensures LastOf(rows, k, keyField) == None <==> forall j :: 0 <= j < |rows| ==> RowKey(rows[j], keyField) != k
  {
    if rows != [] {
      LastOfNone(rows[..|rows| - 1], k, keyField);
    }
  }

  lemma {:induction false} LastOfAt(rows: seq<Value>, k: Text, keyField: Text, i: nat)
    requires i < |rows| && RowKey(rows[i], keyField) == k
    requires forall j :: i < j < |rows| ==> RowKey(rows[j], keyField) != k
    ensures LastOf(rows, k, keyField) == Some(rows[i])
  {
    if i < |rows| - 1 {
      LastOfAt(rows[..|rows| - 1], k, keyField, i);
    }
  }

  lemma {:induction false} LastOfAppend(a: seq<Value>, b: seq<Value>, k: Text, keyField: Text)
    ensures LastOf(a + b, k, keyField)
            == if LastOf(b, k, keyField).Some? then LastOf(b, k, keyField) else LastOf(a, k, keyField)
    decreases |b|
  {
    if b == [] {
      assert a + b == a;
    } else {
      assert (a + b)[..|a + b| - 1] == a + b[..|b| - 1];
      LastOfAppend(a, b[..|b| - 1], k, keyField);
    }
  }

  lemma {:induction false} LastOfKept(rows: seq<Value>, deleted: set<Text>, k: Text, keyField: Text)
    ensures LastOf(Kept(rows, deleted, keyField), k, keyField)
            == if k in deleted then None else LastOf(rows, k, keyField)
  {
    if rows != [] {
      var init, last := rows[..|rows| - 1], rows[|rows| - 1];
      LastOfKept(init, deleted, k, keyField);
      assert rows == init + [last];
      KeptAppend(init, [last], deleted, keyField);
      KeptPrepend(last, [], deleted, keyField);
      assert [last] + [] == [last];
      LastOfAppend(Kept(init, deleted, keyField), Kept([last], deleted, keyField), k, keyField);
    }
  }

  /** The last row with a key, in the result. */
  lemma ResultHolds(stored: seq<Value>, d: Delta, keyField: Text, x: Value)
    ensures var k := RowKey(x, keyField);
            var upserted := if k == [] then None else LastOf(d.upserts, k, keyField);
            x in ApplyDelta(stored, d, keyField)
            <==> (if upserted.Some? then upserted == Some(x)
                  else k !in d.deleted && LastOf(stored, k, keyField) == Some(x))
  {
    var rows := Kept(stored, d.deleted, keyField) + Identified(d.upserts, keyField);
    var m, k := AfterDelta(stored, d, keyField), RowKey(x, keyField);
    PutAllIs(rows, keyField);
    FindMember(m, Entry(k, x));
    ValueFiled(m, keyField, x);
    LastOfAppend(Kept(stored, d.deleted, keyField), Identified(d.upserts, keyField), k, keyField);
    LastOfKept(stored, d.deleted, k, keyField);
    LastOfKept(d.upserts, {[]}, k, keyField);
  }

  lemma ValueFiled(m: Keyed, keyField: Text, x: Value)
    requires FiledByKey(m, keyField)
    ensures x in Values(m) <==> Entry(RowKey(x, keyField), x) in m
  {
    if x in Values(m) {
      var i :| 0 <= i < |m| && m[i].value == x;
      assert m[i] in m;
    }
    if Entry(RowKey(x, keyField), x) in m {
      var i :| 0 <= i < |m| && m[i] == Entry(RowKey(x, keyField), x);
      assert Values(m)[i] == x;
    }
  }

  /** The row at `i` is the last one with the key. */
  ghost predicate LastWithKey(rows: seq<Value>, i: nat, keyField: Text, k: Text) {
    && i < |rows| && HasKey(rows[i], keyField, k)
    && forall j :: i < j < |rows| ==> !HasKey(rows[j], keyField, k)
  }

  lemma LastOfMeaning(rows: seq<Value>, keyField: Text, k: Text, x: Value)
    requires Proper(rows) && k != []
    ensures LastOf(rows, k, keyField) == Some(x) <==> exists i: nat :: LastWithKey(rows, i, keyField, k) && rows[i] == x
    ensures LastOf(rows, k, keyField) == None <==> forall i :: 0 <= i < |rows| ==> !HasKey(rows[i], keyField, k)
  {
    forall i | 0 <= i < |rows| ensures RowKey(rows[i], keyField) == k <==> HasKey(rows[i], keyField, k) {
      RowKeyMeaning(rows[i], keyField, k);
    }
    LastOfNone(rows, k, keyField);
    forall i: nat | LastWithKey(rows, i, keyField, k) ensures LastOf(rows, k, keyField) == Some(rows[i]) {
      LastOfAt(rows, k, keyField, i);
    }
    if LastOf(rows, k, keyField) == Some(x) {
      var i := LastOfFound(rows, k, keyField);
      assert LastWithKey(rows, i, keyField, k) && rows[i] == x;
    }
  }

  lemma {:induction false} LastOfFound(rows: seq<Value>, k: Text, keyField: Text) returns (i: nat)
    requires LastOf(rows, k, keyField).Some?
    ensures i < |rows| && RowKey(rows[i], keyField) == k && LastOf(rows, k, keyField) == Some(rows[i])
    ensures forall j :: i < j < |rows| ==> RowKey(rows[j], keyField) != k
  {
    var n := |rows| - 1;
    if RowKey(rows[n], keyField) == k {
      i := n;
    } else {
      i := LastOfFound(rows[..n], k, keyField);
      forall j | i < j < |rows| ensures RowKey(rows[j], keyField) != k {
        if j < n { assert rows[j] == rows[..n][j]; }
      }
    }
  }

  /** The row is the last upsert whose key field prints as `k` or, with no such upsert and `k` not deleted, the last
      such stored row. */
  ghost predicate Left(stored: seq<Value>, d: Delta, keyField: Text, k: Text, x: Value) {
    || (exists i: nat :: LastWithKey(d.upserts, i, keyField, k) && d.upserts[i] == x)
    || (k !in d.deleted && (forall i :: 0 <= i < |d.upserts| ==> !HasKey(d.upserts[i], keyField, k))
        && exists i: nat :: LastWithKey(stored, i, keyField, k) && stored[i] == x)
  }

  /** The rows with a key in the result, told by their key fields alone. */
  lemma KeyedRowsExactly(stored: seq<Value>, d: Delta, keyField: Text, k: Text, x: Value)
    requires Proper(stored) && Proper(d.upserts) && Proper([x]) && k != [] && HasKey(x, keyField, k)
    ensures x in ApplyDelta(stored, d, keyField) <==> Left(stored, d, keyField, k, x)
  {
    assert [x][0] == x;
    RowKeyMeaning(x, keyField, k);
    ResultHolds(stored, d, keyField, x);
    LastOfMeaning(d.upserts, keyField, k, x);
    LastOfMeaning(stored, keyField, k, x);
  }

  /** A row without a key is in the result exactly when it is the last such stored row and the empty text is not
      deleted: upserts without a key are passed over. */
  lemma KeylessRowsExactly(stored: seq<Value>, d: Delta, keyField: Text, x: Value)
    requires Proper(stored) && Proper([x]) && Keyless(x, keyField)
    ensures x in ApplyDelta(stored, d, keyField)
            <==> [] !in d.deleted && exists i: nat :: LastKeyless(stored, i, keyField) && stored[i] == x
  {
    assert [x][0] == x;
    KeylessMeaning(x, keyField);
    ResultHolds(stored, d, keyField, x);
    forall i | 0 <= i < |stored| ensures RowKey(stored[i], keyField) == [] <==> Keyless(stored[i], keyField) {
      KeylessMeaning(stored[i], keyField);
    }
    if LastOf(stored, [], keyField) == Some(x) {
      var i := LastOfFound(stored, [], keyField);
      assert LastKeyless(stored, i, keyField) && stored[i] == x;
    }
    forall i: nat | LastKeyless(stored, i, keyField) ensures LastOf(stored, [], keyField) == Some(stored[i]) {
      LastOfAt(stored, [], keyField, i);
    }
  }

  ghost predicate Keyless(row: Value, keyField: Text) {
    forall k :: k != [] ==> !HasKey(row, keyField, k)
  }

  ghost predicate LastKeyless(rows: seq<Value>, i: nat, keyField: Text) {
    && i < |rows| && Keyless(rows[i], keyField)
    && forall j :: i < j < |rows| ==> !Keyless(rows[j], keyField)
  }

  lemma KeylessMeaning(row: Value, keyField: Text)
    requires row.Obj? ==> DistinctKeys(row.members)
    ensures RowKey(row, keyField) == [] <==> Keyless(row, keyField)
  {
    forall k | k != [] ensures RowKey(row, keyField) == k <==> HasKey(row, keyField, k) {
      RowKeyMeaning(row, keyField, k);
    }
    var k := RowKey(row, keyField);
    assert k != [] ==> HasKey(row, keyField, k);
  }

  ghost predicate DistinctRows(rows: seq<Value>, keyField: Text) {
    forall i, j :: 0 <= i < j < |rows| ==> RowKey(rows[i], keyField) != RowKey(rows[j], keyField)
  }

  lemma {:induction false} FirstKeysPrefix(a: seq<Value>, b: seq<Value>, keyField: Text)
    requires DistinctRows(a, keyField)
    ensures |a| <= |FirstKeys(a + b, keyField)|
    ensures forall i :: 0 <= i < |a| ==> FirstKeys(a + b, keyField)[i] == RowKey(a[i], keyField)
    decreases |a| + |b|
  {
    if b != [] {
      FirstKeysPrefix(a, b[..|b| - 1], keyField);
      assert (a + b)[..|a + b| - 1] == a + b[..|b| - 1];
    } else if a != [] {
      var front := a[..|a| - 1];
      FirstKeysPrefix(front, [], keyField);
      assert front + [] == front && a + b == a;
      FirstKeysOnly(front, keyField);
      assert RowKey(a[|a| - 1], keyField) !in FirstKeys(front, keyField);
    }
  }

  lemma {:induction false} FirstKeysOnly(a: seq<Value>, keyField: Text)
    requires DistinctRows(a, keyField)
    ensures |FirstKeys(a, keyField)| == |a|
    ensures forall i :: 0 <= i < |a| ==> FirstKeys(a, keyField)[i] == RowKey(a[i], keyField)
  {
    if a != [] {
      var front, last := a[..|a| - 1], a[|a| - 1];
      FirstKeysOnly(front, keyField);
      assert RowKey(last, keyField) !in FirstKeys(front, keyField);
    }
  }

  /** With distinct stored keys the rows that are kept stay where they are; new ones come after. */
  lemma KeptRowsStay(stored: seq<Value>, d: Delta, keyField: Text)
    requires DistinctRows(stored, keyField)
    ensures var kept := Kept(stored, d.deleted, keyField); var r := ApplyDelta(stored, d, keyField);
            |kept| <= |r| && forall i :: 0 <= i < |kept| ==> RowKey(r[i], keyField) == RowKey(kept[i], keyField)
  {
    KeptDistinct(stored, d.deleted, keyField);
    DeltaResult(stored, d, keyField);
    FirstKeysPrefix(Kept(stored, d.deleted, keyField), Identified(d.upserts, keyField), keyField);
  }

  lemma {:induction false} KeptDistinct(rows: seq<Value>, deleted: set<Text>, keyField: Text)
    requires DistinctRows(rows, keyField)
    ensures DistinctRows(Kept(rows, deleted, keyField), keyField)
    ensures forall r :: r in Kept(rows, deleted, keyField) ==> r in rows
  {
    if rows != [] {
      KeptDistinct(rows[1..], deleted, keyField);
      assert rows == [rows[0]] + rows[1..];
      var rest := Kept(rows[1..], deleted, keyField);
      forall j | 0 <= j < |rest| ensures RowKey(rest[j], keyField) != RowKey(rows[0], keyField) {
        assert rest[j] in rows[1..];
      }
    }
  }

  // ---------------------------------------------------------------- two deltas in a row

  /** One delta with the effect of `d1` and then `d2`. */
  function Combine(d1: Delta, d2: Delta, keyField: Text): Delta {
    Delta(Kept(d1.upserts, d2.deleted, keyField) + d2.upserts, d1.deleted + d2.deleted)
  }

  lemma KeptPrepend(row: Value, rows: seq<Value>, deleted: set<Text>, keyField: Text)
    ensures Kept([row] + rows, deleted, keyField)
            == if RowKey(row, keyField) in deleted then Kept(rows, deleted, keyField)
               else [row] + Kept(rows, deleted, keyField)
  {
    assert ([row] + rows)[1..] == rows;
  }

  lemma Regroup(a: seq<Value>, b: seq<Value>, c: seq<Value>)
    ensures a + (b + c) == (a + b) + c
  {
  }

  lemma KeptAppendHead(x: Value, rest: seq<Value>, b: seq<Value>, deleted: set<Text>, keyField: Text)
    requires Kept(rest + b, deleted, keyField) == Kept(rest, deleted, keyField) + Kept(b, deleted, keyField)
    ensures Kept([x] + (rest + b), deleted, keyField)
            == Kept([x] + rest, deleted, keyField) + Kept(b, deleted, keyField)
  {
    KeptPrepend(x, rest, deleted, keyField);
    KeptPrepend(x, rest + b, deleted, keyField);
    Regroup([x], Kept(rest, deleted, keyField), Kept(b, deleted, keyField));
  }

  lemma {:induction false} KeptAppend(a: seq<Value>, b: seq<Value>, deleted: set<Text>, keyField: Text)
    ensures Kept(a + b, deleted, keyField) == Kept(a, deleted, keyField) + Kept(b, deleted, keyField)
  {
    if a == [] {
      assert a + b == b;
    } else {
      KeptAppend(a[1..], b, deleted, keyField);
      KeptAppendHead(a[0], a[1..], b, deleted, keyField);
      assert [a[0]] + a[1..] == a;
      assert [a[0]] + (a[1..] + b) == a + b;
    }
  }

  lemma {:induction false} KeptKept(rows: seq<Value>, d1: set<Text>, d2: set<Text>, keyField: Text)
    ensures Kept(Kept(rows, d1, keyField), d2, keyField) == Kept(rows, d1 + d2, keyField)
  {
    if rows != [] {
      var x, rest := rows[0], rows[1..];
      KeptKept(rest, d1, d2, keyField);
      assert rows == [x] + rest;
      KeptPrepend(x, rest, d1, keyField);
      KeptPrepend(x, rest, d1 + d2, keyField);
      KeptPrepend(x, Kept(rest, d1, keyField), d2, keyField);
    }
  }

  lemma {:induction false} WithoutPut(m: Keyed, k: Text, v: Value, ks: set<Text>)
    ensures Without(Put(m, k, v), ks) == if k in ks then Without(m, ks) else Put(Without(m, ks), k, v)
  {
    if m == [] {
      assert [Entry(k, v)][1..] == [];
    } else if m[0].key == k {
      assert Put(m, k, v)[1..] == m[1..];
    } else {
      WithoutPut(m[1..], k, v, ks);
      assert Put(m, k, v)[1..] == Put(m[1..], k, v);
    }
  }

  /** Deleting after a run of puts is the same as not putting the deleted rows. */
  lemma {:induction false} WithoutPutAll(m: Keyed, rows: seq<Value>, ks: set<Text>, keyField: Text)
    ensures Without(PutAll(m, rows, keyField), ks) == PutAll(Without(m, ks), Kept(rows, ks, keyField), keyField)
    decreases |rows|
  {
    if rows != [] {
      var k := RowKey(rows[0], keyField);
      WithoutPutAll(Put(m, k, rows[0]), rows[1..], ks, keyField);
      WithoutPut(m, k, rows[0], ks);
      var rest := Kept(rows[1..], ks, keyField);
      assert rows == [rows[0]] + rows[1..] && ([rows[0]] + rest)[1..] == rest;
      KeptPrepend(rows[0], rows[1..], ks, keyField);
    }
  }

  lemma KeptValuesHead(e: Entry<Text, Value>, rest: Keyed, ks: set<Text>, keyField: Text)
    requires e.key == RowKey(e.value, keyField)
    requires Kept(Values(rest), ks, keyField) == Values(Without(rest, ks))
    ensures Kept([e.value] + Values(rest), ks, keyField)
         == if e.key in ks then Values(Without(rest, ks)) else [e.value] + Values(Without(rest, ks))
  {
    KeptPrepend(e.value, Values(rest), ks, keyField);
  }

  lemma {:induction false} KeptValues(m: Keyed, ks: set<Text>, keyField: Text)
    requires FiledByKey(m, keyField)
    ensures Kept(Values(m), ks, keyField) == Values(Without(m, ks))
  {
    if m != [] {
      assert m[0] in m;
      assert forall e :: e in m[1..] ==> e in m;
      KeptValues(m[1..], ks, keyField);
      KeptValuesHead(m[0], m[1..], ks, keyField);
      assert m[0].key !in ks ==> Without(m, ks)[1..] == Without(m[1..], ks);
    }
  }

  /** Filing rows that are already keyed apart gives back the same map. */
  lemma {:induction false} Refile(front: Keyed, m: Keyed, keyField: Text)
    requires UniqueKeys(front + m) && FiledByKey(m, keyField)
    ensures PutAll(front, Values(m), keyField) == front + m
    decreases |m|
  {
    if m == [] {
      assert front + m == front;
    } else {
      var e := m[0];
      assert e in m;
      assert (front + m)[|front|] == e;
      assert forall i :: 0 <= i < |front| ==> (front + m)[i] == front[i];
      PutFresh(front, e.key, e.value);
      assert front + m == (front + [e]) + m[1..];
      assert forall x :: x in m[1..] ==> x in m;
      Refile(front + [e], m[1..], keyField);
      assert Values(m)[1..] == Values(m[1..]);
    }
  }

  lemma {:induction false} PutFresh(m: Keyed, k: Text, v: Value)
    requires forall i :: 0 <= i < |m| ==> m[i].key != k
    ensures Put(m, k, v) == m + [Entry(k, v)]
  {
    if m != [] {
      PutFresh(m[1..], k, v);
    }
  }

  lemma WithoutFiled(m: Keyed, ks: set<Text>, keyField: Text)
    requires FiledByKey(m, keyField) && UniqueKeys(m)
    ensures FiledByKey(Without(m, ks), keyField) && UniqueKeys(Without(m, ks))
  {
    WithoutUnique(m, ks);
    forall e | e in Without(m, ks) ensures e.key == RowKey(e.value, keyField) {
      WithoutMember(m, ks, e);
    }
  }

  /** A delta applied to the result of an earlier one. */
  lemma DeltaOnResult(stored: seq<Value>, d1: Delta, d2: Delta, keyField: Text)
    ensures AfterDelta(ApplyDelta(stored, d1, keyField), d2, keyField)
            == PutAll(Without(AfterDelta(stored, d1, keyField), d2.deleted), Identified(d2.upserts, keyField), keyField)
  {
    var m := AfterDelta(stored, d1, keyField);
    PutAllIs(Kept(stored, d1.deleted, keyField) + Identified(d1.upserts, keyField), keyField);
    KeptValues(m, d2.deleted, keyField);
    var n := Without(m, d2.deleted);
    WithoutFiled(m, d2.deleted, keyField);
    PutAllAppend([], Values(n), Identified(d2.upserts, keyField), keyField);
    assert [] + n == n;
    Refile([], n, keyField);
  }

  /** Applying two deltas one after the other gives the same list, in the same order, as applying
      their combination once — whatever rows are stored. */
  lemma DeltasCompose(stored: seq<Value>, d1: Delta, d2: Delta, keyField: Text)
    ensures ApplyDelta(ApplyDelta(stored, d1, keyField), d2, keyField)
            == ApplyDelta(stored, Combine(d1, d2, keyField), keyField)
  {
    var k1, u1, u2 := Kept(stored, d1.deleted, keyField), Identified(d1.upserts, keyField), Identified(d2.upserts, keyField);
    var k, u := Kept(k1, d2.deleted, keyField), Kept(u1, d2.deleted, keyField);
    DeltaOnResult(stored, d1, d2, keyField);
    assert Without(AfterDelta(stored, d1, keyField), d2.deleted) == PutAll([], k + u, keyField) by {
      WithoutPutAll([], k1 + u1, d2.deleted, keyField);
      KeptAppend(k1, u1, d2.deleted, keyField);
    }
    PutAllAppend([], k + u, u2, keyField);
    CombinedRows(stored, d1, d2, keyField);
  }

  lemma CombinedRows(stored: seq<Value>, d1: Delta, d2: Delta, keyField: Text)
    ensures var d := Combine(d1, d2, keyField);
            Kept(stored, d.deleted, keyField) + Identified(d.upserts, keyField)
            == Kept(Kept(stored, d1.deleted, keyField), d2.deleted, keyField)
               + Kept(Identified(d1.upserts, keyField), d2.deleted, keyField)
               + Identified(d2.upserts, keyField)
  {
    KeptKept(stored, d1.deleted, d2.deleted, keyField);
    KeptKept(d1.upserts, {[]}, d2.deleted, keyField);
    KeptKept(d1.upserts, d2.deleted, {[]}, keyField);
    assert {[]} + d2.deleted == d2.deleted + {[]};
    KeptAppend(Kept(d1.upserts, d2.deleted, keyField), d2.upserts, {[]}, keyField);
  }
}
