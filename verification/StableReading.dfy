/** What the stable text of a value says when it is read (packages/client/src/kv-stores.ts). */
module StableReading {
  import opened Texts
  import opened Sorting
  import opened Json
  import opened JsonReading
  import opened StableKeys

  /** Code unit by code unit: the first difference decides; without one the shorter key comes first. */
  ghost predicate KeyBefore(a: Text, b: Text) {
    a < b || exists i :: 0 <= i < |a| && i < |b| && a[..i] == b[..i] && a[i] < b[i]
  }

  /** The keys of every object, however deep, ascend. */
  ghost predicate Tidy(v: Value) {
    match v
    case Arr(es) => forall e :: e in es ==> Tidy(e)
    case Obj(ms) =>
      && (forall i, j :: 0 <= i < j < |ms| ==> KeyBefore(ms[i].key, ms[j].key))
      && (forall m :: m in ms ==> Tidy(m.value))
    case _ => true
  }

  lemma SortedAscends(ms: seq<Member>)
    requires DistinctKeys(ms)
    ensures var r := SortedMembers(ms); forall i, j :: 0 <= i < j < |r| ==> KeyBefore(r[i].key, r[j].key)
  {
    var r := SortedMembers(ms);
    MemberKeyOrder();
    StableSortSorted(ms, MemberKeyLeq);
    DistinctKeysSorted(ms);
    forall i, j | 0 <= i < j < |r| ensures KeyBefore(r[i].key, r[j].key) {
      assert MemberKeyLeq(r[i], r[j]);
      LexMeaning(r[i].key, r[j].key);
    }
  }

  lemma {:induction false} CanonicalTidy(v: Value)
    requires Valid(v)
    ensures Tidy(Canonical(v))
    decreases v
  {
    match v
    case Arr(es) => forall e | e in es { CanonicalTidy(e); }
    case Obj(ms) =>
      var cs := CanonicalMembers(ms);
      SortedAscends(cs);
      forall m | m in SortedMembers(cs) ensures Tidy(m.value) {
        var i :| 0 <= i < |cs| && cs[i] == m;
        assert ms[i] in ms;
        CanonicalTidy(ms[i].value);
      }
    case _ =>
  }

  lemma SortedHolds(ms: seq<Member>, m: Member)
    ensures m in SortedMembers(ms) <==> m in ms
  {
    assert m in SortedMembers(ms) <==> m in multiset(SortedMembers(ms));
    assert m in ms <==> m in multiset(ms);
  }

  lemma CanonicalKeys(ms: seq<Member>)
    ensures MemberKeys(SortedMembers(CanonicalMembers(ms))) == MemberKeys(ms)
  {
    var cs := CanonicalMembers(ms);
    forall m | m in ms ensures m.key in MemberKeys(SortedMembers(cs)) {
      var i :| 0 <= i < |ms| && ms[i] == m;
      assert cs[i] in cs;
      SortedHolds(cs, cs[i]);
    }
    forall m | m in SortedMembers(cs) ensures m.key in MemberKeys(ms) {
      var i :| 0 <= i < |cs| && cs[i] == m;
      assert ms[i] in ms;
    }
  }

  lemma {:induction false} CanonicalSame(v: Value)
    requires Valid(v)
    ensures SameValue(v, Canonical(v))
    decreases v
  {
    match v
    case Arr(es) =>
      forall i | 0 <= i < |es| ensures SameValue(es[i], Canonical(es[i])) {
        assert es[i] in es;
        CanonicalSame(es[i]);
      }
    case Obj(ms) =>
      var cs := CanonicalMembers(ms);
      CanonicalKeys(ms);
      forall m, n | m in ms && n in SortedMembers(cs) && n.key == m.key ensures SameValue(m.value, n.value) {
        var i :| 0 <= i < |cs| && cs[i] == n;
        var j :| 0 <= j < |ms| && ms[j] == m;
        assert i == j;
        CanonicalSame(ms[j].value);
      }
    case _ =>
  }

  /** Read as RFC 8259 says, the stable text is the value up to the order of object members, with the keys of every
      object ascending. */
  lemma StableReads(v: Value) returns (r: Value)
    requires Valid(v)
    ensures Parse(StableStringify(v)) == Got(r, []) && SameValue(v, r) && Tidy(r)
  {
    r := Canonical(v);
    CanonicalValid(v);
    StableIsCanonical(v);
    ParseStringify(r);
    CanonicalSame(v);
    CanonicalTidy(v);
  }
}
