/** A JavaScript `Map`, which the key-value backend of the cache and the tab list of its coordinator both are:
    lookup by key, iteration in insertion order. A present key keeps its place when it is set again; deleting a set
    of keys keeps the order of the others. */
module OrderedMaps {
  import opened Options

  datatype Entry<+K, +V> = Entry(key: K, value: V)

  ghost predicate UniqueKeys<K, V>(m: seq<Entry<K, V>>) {
    forall i, j :: 0 <= i < j < |m| ==> m[i].key != m[j].key
  }

  ghost function KeySet<K, V>(m: seq<Entry<K, V>>): set<K> {
    set e | e in m :: e.key
  }

  function Find<K(==), V>(m: seq<Entry<K, V>>, k: K): (r: Option<V>)
    ensures r.Some? <==> k in KeySet(m)
    ensures r.Some? ==> Entry(k, r.value) in m
  {
    if m == [] then None
    else if m[0].key == k then Some(m[0].value)
    else
      assert KeySet(m) == {m[0].key} + KeySet(m[1..]);
      Find(m[1..], k)
  }

  /** `map.set`: a present key keeps its place, a new one goes to the end. */
  function Put<K(==), V>(m: seq<Entry<K, V>>, k: K, v: V): (r: seq<Entry<K, V>>) {
    if m == [] then [Entry(k, v)]
    else if m[0].key == k then [Entry(k, v)] + m[1..]
    else [m[0]] + Put(m[1..], k, v)
  }

  /** The map after `delete` of each of `ks`. */
  function Without<K(==), V>(m: seq<Entry<K, V>>, ks: set<K>): (r: seq<Entry<K, V>>) {
    if m == [] then []
    else if m[0].key in ks then Without(m[1..], ks)
    else [m[0]] + Without(m[1..], ks)
  }

  lemma {:induction false} PutKeys<K, V>(m: seq<Entry<K, V>>, k: K, v: V)
    ensures KeySet(Put(m, k, v)) == KeySet(m) + {k}
  {
    if m == [] {
    } else {
      assert KeySet(m) == {m[0].key} + KeySet(m[1..]) by { assert m == [m[0]] + m[1..]; }
      if m[0].key == k {
        assert Put(m, k, v) == [Entry(k, v)] + m[1..];
        assert KeySet(Put(m, k, v)) == {k} + KeySet(m[1..]);
      } else {
        PutKeys(m[1..], k, v);
        assert KeySet(Put(m, k, v)) == {m[0].key} + KeySet(Put(m[1..], k, v));
      }
    }
  }

  lemma {:induction false} PutUnique<K, V>(m: seq<Entry<K, V>>, k: K, v: V)
    requires UniqueKeys(m)
    ensures UniqueKeys(Put(m, k, v))
  {
    if m != [] && m[0].key != k {
      PutUnique(m[1..], k, v);
      PutKeys(m[1..], k, v);
      var r := Put(m[1..], k, v);
      forall j | 0 <= j < |r| ensures r[j].key != m[0].key {
        assert r[j].key in KeySet(r);
      }
    }
  }

  lemma {:induction false} PutFind<K, V>(m: seq<Entry<K, V>>, k: K, v: V, x: K)
    ensures Find(Put(m, k, v), x) == if x == k then Some(v) else Find(m, x)
  {
    if m != [] && m[0].key != k {
      PutFind(m[1..], k, v, x);
      assert Put(m, k, v)[1..] == Put(m[1..], k, v);
    }
  }

  /** `Put` changes one place: the key's own, or a new one at the end. */
  lemma {:induction false} PutPlace<K, V>(m: seq<Entry<K, V>>, key: K, v: V) returns (p: nat)
    requires UniqueKeys(m)
    ensures p < |Put(m, key, v)| && Put(m, key, v)[p] == Entry(key, v)
    ensures if p < |m| then Put(m, key, v) == m[p := Entry(key, v)] && m[p].key == key
            else p == |m| && Put(m, key, v) == m + [Entry(key, v)] && key !in KeySet(m)
  {
    if m == [] {
      p := 0;
    } else if m[0].key == key {
      p := 0;
      assert Put(m, key, v) == m[0 := Entry(key, v)];
    } else {
      var q := PutPlace(m[1..], key, v);
      p := q + 1;
      assert m == [m[0]] + m[1..];
      assert KeySet(m) == {m[0].key} + KeySet(m[1..]);
    }
  }

  lemma {:induction false} FindMember<K, V>(m: seq<Entry<K, V>>, e: Entry<K, V>)
    requires UniqueKeys(m)
    ensures e in m <==> Find(m, e.key) == Some(e.value)
  {
    if m != [] {
      FindMember(m[1..], e);
      if e in m {
        var i :| 0 <= i < |m| && m[i] == e;
        if i > 0 { assert e == m[1..][i - 1]; }
      }
    }
  }

  lemma {:induction false} PutMember<K, V>(m: seq<Entry<K, V>>, k: K, v: V, e: Entry<K, V>)
    requires UniqueKeys(m)
    ensures e in Put(m, k, v) <==> if e.key == k then e.value == v else e in m
  {
    PutUnique(m, k, v);
    FindMember(Put(m, k, v), e);
    FindMember(m, e);
    PutFind(m, k, v, e.key);
  }

  lemma {:induction false} WithoutMember<K, V>(m: seq<Entry<K, V>>, ks: set<K>, e: Entry<K, V>)
    ensures e in Without(m, ks) <==> e in m && e.key !in ks
  {
    if m != [] {
      WithoutMember(m[1..], ks, e);
      assert m == [m[0]] + m[1..];
    }
  }

  lemma {:induction false} WithoutUnique<K, V>(m: seq<Entry<K, V>>, ks: set<K>)
    requires UniqueKeys(m)
    ensures UniqueKeys(Without(m, ks))
  {
    if m != [] {
      WithoutUnique(m[1..], ks);
      if m[0].key !in ks {
        var r := Without(m[1..], ks);
        forall j | 0 <= j < |r| ensures r[j].key != m[0].key {
          WithoutMember(m[1..], ks, r[j]);
        }
      }
    }
  }

  lemma WithoutFind<K, V>(m: seq<Entry<K, V>>, ks: set<K>, x: K)
    requires UniqueKeys(m)
    ensures Find(Without(m, ks), x) == if x in ks then None else Find(m, x)
  {
    WithoutUnique(m, ks);
    if x in ks {
      if x in KeySet(Without(m, ks)) {
        var e :| e in Without(m, ks) && e.key == x;
        WithoutMember(m, ks, e);
      }
    } else if Find(m, x).Some? {
      var e := Entry(x, Find(m, x).value);
      WithoutMember(m, ks, e);
      FindMember(Without(m, ks), e);
    } else if x in KeySet(Without(m, ks)) {
      var e :| e in Without(m, ks) && e.key == x;
      WithoutMember(m, ks, e);
    }
  }

  lemma {:induction false} WithoutNone<K, V>(m: seq<Entry<K, V>>, ks: set<K>)
    requires KeySet(m) !! ks
    ensures Without(m, ks) == m
  {
    if m != [] {
      assert m[0].key in KeySet(m);
      assert KeySet(m[1..]) <= KeySet(m);
      WithoutNone(m[1..], ks);
    }
  }
}
