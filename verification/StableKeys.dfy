/** `stableStringify` and `storageKey` (packages/client/src/kv-stores.ts): the string under
    which a query's result or a synced collection is stored. */
module StableKeys {
  import opened Texts
  import opened Sorting
  import opened Json

  predicate MemberKeyLeq(a: Member, b: Member) {
    LexLeq(a.key, b.key)
  }

  lemma MemberKeyOrder()
    ensures TotalPreorder(MemberKeyLeq)
  {
    forall a: Member, b: Member { LexTotal(a.key, b.key); }
    forall a: Member, b: Member, c: Member | MemberKeyLeq(a, b) && MemberKeyLeq(b, c) {
      LexTransitive(a.key, b.key, c.key);
    }
  }

  function SortedMembers(ms: seq<Member>): (r: seq<Member>)
    ensures |r| == |ms| && multiset(r) == multiset(ms)
    ensures forall m :: m in r ==> m in ms
  {
    MemberKeyOrder();
    StableSortSorted(ms, MemberKeyLeq);
    StableSortMembers(ms, MemberKeyLeq);
    StableSort(ms, MemberKeyLeq)
  }

  lemma MemberSmaller(owner: Value, m: Member)
    requires owner.Obj? && m in owner.members
    ensures m.value < owner
  {
    var i :| 0 <= i < |owner.members| && owner.members[i] == m;
    assert owner.members[i].value < owner;
  }

  /** `stableStringify`: like `JSON.stringify`, with every object's keys in sorted order. */
  function StableStringify(v: Value): Text
    decreases v, 1, 0
  {
    match v
    case Arr(es) => [91] + StableElements(es) + [93]
    case Obj(ms) => [123] + StableMembers(v, SortedMembers(ms)) + [125]
    case _ => Stringify(v)
  }

  function StableElements(es: seq<Value>): Text
    decreases es, 0, 0
  {
    if es == [] then []
    else StableStringify(es[0]) + (if |es| == 1 then [] else [COMMA] + StableElements(es[1..]))
  }

  function StableMembers(owner: Value, ms: seq<Member>): Text
    requires owner.Obj? && forall m :: m in ms ==> m in owner.members
    decreases owner, 0, |ms|
  {
    if ms == [] then []
    else
      MemberSmaller(owner, ms[0]);
      Quote(ms[0].key) + [58] + StableStringify(ms[0].value)
      + (if |ms| == 1 then [] else [COMMA] + StableMembers(owner, ms[1..]))
  }

  // ---------------------------------------------------------------- canonical form

  /** The same value with the members of every object sorted by key. */
  ghost function Canonical(v: Value): Value
    decreases v, 1
  {
    match v
    case Arr(es) => Arr(CanonicalElements(es))
    case Obj(ms) => Obj(SortedMembers(CanonicalMembers(ms)))
    case _ => v
  }

  ghost function CanonicalElements(es: seq<Value>): (r: seq<Value>)
    ensures |r| == |es|
    ensures forall i :: 0 <= i < |es| ==> r[i] == Canonical(es[i])
    decreases es, 0
  {
    if es == [] then [] else [Canonical(es[0])] + CanonicalElements(es[1..])
  }

  ghost function CanonicalMembers(ms: seq<Member>): (r: seq<Member>)
    ensures |r| == |ms|
    ensures forall i :: 0 <= i < |ms| ==> r[i] == Member(ms[i].key, Canonical(ms[i].value))
    decreases ms, 0
  {
    if ms == [] then []
    else [Member(ms[0].key, Canonical(ms[0].value))] + CanonicalMembers(ms[1..])
  }

  lemma {:induction false} InsertCanonical(m: Member, ms: seq<Member>)
    ensures CanonicalMembers(Insert(m, ms, MemberKeyLeq))
            == Insert(Member(m.key, Canonical(m.value)), CanonicalMembers(ms), MemberKeyLeq)
  {
    if ms != [] && !MemberKeyLeq(m, ms[0]) {
      InsertCanonical(m, ms[1..]);
      assert Insert(m, ms, MemberKeyLeq)[1..] == Insert(m, ms[1..], MemberKeyLeq);
    } else {
      assert ([m] + ms)[1..] == ms;
    }
  }

  lemma {:induction false} SortCanonical(ms: seq<Member>)
    ensures CanonicalMembers(SortedMembers(ms)) == SortedMembers(CanonicalMembers(ms))
  {
    if ms != [] {
      SortCanonical(ms[1..]);
      InsertCanonical(ms[0], SortedMembers(ms[1..]));
    }
  }

  /** The stable text of a value is the plain text of its canonical form. */
  lemma {:induction false} StableIsCanonical(v: Value)
    ensures StableStringify(v) == Stringify(Canonical(v))
    decreases v, 1, 0
  {
    match v
    case Arr(es) => StableElementsCanonical(es);
    case Obj(ms) =>
      StableMembersCanonical(v, SortedMembers(ms));
      SortCanonical(ms);
    case _ =>
  }

  lemma {:induction false} StableElementsCanonical(es: seq<Value>)
    ensures StableElements(es) == ElementsText(CanonicalElements(es))
    decreases es, 0, 0
  {
    if es != [] {
      StableIsCanonical(es[0]);
      StableElementsCanonical(es[1..]);
    }
  }

  lemma {:induction false} StableMembersCanonical(owner: Value, ms: seq<Member>)
    requires owner.Obj? && forall m :: m in ms ==> m in owner.members
    ensures StableMembers(owner, ms) == MembersText(CanonicalMembers(ms))
    decreases owner, 0, |ms|
  {
    if ms != [] {
      MemberSmaller(owner, ms[0]);
      StableIsCanonical(ms[0].value);
      StableMembersCanonical(owner, ms[1..]);
    }
  }

  lemma {:induction false} CanonicalValid(v: Value)
    requires Valid(v)
    ensures Valid(Canonical(v))
  {
    match v
    case Arr(es) => forall e | e in es { CanonicalValid(e); }
    case Obj(ms) =>
      var cs := CanonicalMembers(ms);
      DistinctKeysSorted(cs);
      forall m | m in SortedMembers(cs) ensures Valid(m.value) {
        var i :| 0 <= i < |cs| && cs[i] == m;
        CanonicalValid(ms[i].value);
      }
    case _ =>
  }

  function KeysOf(ms: seq<Member>): (r: seq<Text>)
    ensures |r| == |ms| && forall i :: 0 <= i < |ms| ==> r[i] == ms[i].key
  {
    if ms == [] then [] else [ms[0].key] + KeysOf(ms[1..])
  }

  lemma {:induction false} KeysOfInsert(m: Member, ms: seq<Member>)
    ensures multiset(KeysOf(Insert(m, ms, MemberKeyLeq))) == multiset{m.key} + multiset(KeysOf(ms))
  {
    if ms != [] && !MemberKeyLeq(m, ms[0]) {
      KeysOfInsert(m, ms[1..]);
      assert Insert(m, ms, MemberKeyLeq)[1..] == Insert(m, ms[1..], MemberKeyLeq);
    } else {
      assert ([m] + ms)[1..] == ms;
    }
  }

  lemma {:induction false} KeysOfSorted(ms: seq<Member>)
    ensures multiset(KeysOf(SortedMembers(ms))) == multiset(KeysOf(ms))
  {
    if ms != [] {
      KeysOfSorted(ms[1..]);
      KeysOfInsert(ms[0], SortedMembers(ms[1..]));
    }
  }

  lemma DistinctKeysSorted(ms: seq<Member>)
    requires DistinctKeys(ms)
    ensures DistinctKeys(SortedMembers(ms))
  {
    KeysOfSorted(ms);
    DistinctFromMultiset(KeysOf(ms), KeysOf(SortedMembers(ms)));
    var r, k := SortedMembers(ms), KeysOf(SortedMembers(ms));
    forall i, j | 0 <= i < j < |r| ensures r[i].key != r[j].key {
      assert k[i] != k[j];
    }
  }

  // ---------------------------------------------------------------- equality up to key order

  function MemberKeys(ms: seq<Member>): set<Text> {
    set m | m in ms :: m.key
  }

  /** Equal up to the order of object members. */
  ghost predicate SameValue(a: Value, b: Value) {
    match a
    case Arr(es) => b.Arr? && |es| == |b.elems| && forall i :: 0 <= i < |es| ==> SameValue(es[i], b.elems[i])
    case Obj(ms) =>
      && b.Obj?
      && MemberKeys(ms) == MemberKeys(b.members)
      && forall m, n :: m in ms && n in b.members && n.key == m.key ==> SameValue(m.value, n.value)
    case _ => a == b
  }

  lemma {:induction false} CanonicalComplete(a: Value, b: Value)
    requires Valid(a) && Valid(b) && SameValue(a, b)
    ensures Canonical(a) == Canonical(b)
    decreases a
  {
    match a
    case Arr(es) => forall i | 0 <= i < |es| { CanonicalComplete(es[i], b.elems[i]); }
    case Obj(ms) =>
      forall m, n | m in ms && n in b.members && n.key == m.key ensures Canonical(m.value) == Canonical(n.value) {
        MemberSmaller(a, m);
        CanonicalComplete(m.value, n.value);
      }
      SubsetCanonical(ms, b.members);
      SubsetCanonical(b.members, ms);
      SameElementsSortAlike(CanonicalMembers(ms), CanonicalMembers(b.members));
    case _ =>
  }

  lemma FromCanonical(ms: seq<Member>, c: Member) returns (m: Member)
    requires c in CanonicalMembers(ms)
    ensures m in ms && c == Member(m.key, Canonical(m.value))
  {
    var i :| 0 <= i < |ms| && CanonicalMembers(ms)[i] == c;
    m := ms[i];
  }

  lemma SubsetCanonical(ms: seq<Member>, ns: seq<Member>)
    requires MemberKeys(ms) <= MemberKeys(ns)
    requires forall m, n :: m in ms && n in ns && n.key == m.key ==> Canonical(m.value) == Canonical(n.value)
    ensures forall c :: c in CanonicalMembers(ms) ==> c in CanonicalMembers(ns)
  {
    forall c | c in CanonicalMembers(ms) ensures c in CanonicalMembers(ns) {
      var m := FromCanonical(ms, c);
      assert m.key in MemberKeys(ns);
      var n :| n in ns && n.key == m.key;
    }
  }

  /** Objects with the same members, listed in any order, sort to the same list. */
  lemma SameElementsSortAlike(cs: seq<Member>, ds: seq<Member>)
    requires DistinctKeys(cs) && DistinctKeys(ds)
    requires forall m :: m in cs <==> m in ds
    ensures SortedMembers(cs) == SortedMembers(ds)
  {
    assert Distinct(cs) && Distinct(ds);
    DistinctCounts(cs);
    DistinctCounts(ds);
    forall m ensures multiset(cs)[m] == multiset(ds)[m] {
      assert m in multiset(cs) <==> m in cs;
      assert m in multiset(ds) <==> m in ds;
    }
    MemberKeyOrder();
    StableSortSorted(cs, MemberKeyLeq);
    StableSortSorted(ds, MemberKeyLeq);
    var r := SortedMembers(cs);
    forall m, n | m in r && n in r && MemberKeyLeq(m, n) && MemberKeyLeq(n, m) ensures m == n {
      LexTotal(m.key, n.key);
      assert m in cs && n in cs;
    }
    SortedUnique(r, SortedMembers(ds), MemberKeyLeq);
  }

  lemma {:induction false} CanonicalSound(a: Value, b: Value)
    requires Valid(a) && Valid(b) && Canonical(a) == Canonical(b)
    ensures SameValue(a, b)
    decreases a
  {
    match a
    case Arr(es) => forall i | 0 <= i < |es| ensures SameValue(es[i], b.elems[i]) {
      assert CanonicalElements(es)[i] == CanonicalElements(b.elems)[i];
      CanonicalSound(es[i], b.elems[i]);
    }
    case Obj(ms) =>
      assert multiset(CanonicalMembers(ms)) == multiset(CanonicalMembers(b.members));
      CanonicalKeys(ms, b.members);
      CanonicalKeys(b.members, ms);
      forall m, n | m in ms && n in b.members && n.key == m.key ensures SameValue(m.value, n.value) {
        CanonicalValues(ms, b.members, m, n);
        MemberSmaller(a, m);
        CanonicalSound(m.value, n.value);
      }
    case _ =>
  }

  lemma CanonicalKeys(ms: seq<Member>, ns: seq<Member>)
    requires multiset(CanonicalMembers(ms)) == multiset(CanonicalMembers(ns))
    ensures MemberKeys(ms) <= MemberKeys(ns)
  {
    forall m | m in ms ensures m.key in MemberKeys(ns) {
      var c := Member(m.key, Canonical(m.value));
      assert c in multiset(CanonicalMembers(ns));
      var n := FromCanonical(ns, c);
    }
  }

  lemma CanonicalValues(ms: seq<Member>, ns: seq<Member>, m: Member, n: Member)
    requires multiset(CanonicalMembers(ms)) == multiset(CanonicalMembers(ns))
    requires DistinctKeys(ns) && m in ms && n in ns && m.key == n.key
    ensures Canonical(m.value) == Canonical(n.value)
  {
    var c := Member(m.key, Canonical(m.value));
    assert c in multiset(CanonicalMembers(ns));
    var n' := FromCanonical(ns, c);
    assert n' == n;
  }

  /** Two JSON values print alike exactly when they are equal up to object key order. */
  lemma StableStringifyCanonical(a: Value, b: Value)
    requires Valid(a) && Valid(b)
    ensures StableStringify(a) == StableStringify(b) <==> SameValue(a, b)
  {
    StableIsCanonical(a);
    StableIsCanonical(b);
    if SameValue(a, b) {
      CanonicalComplete(a, b);
    }
    if StableStringify(a) == StableStringify(b) {
      CanonicalValid(a);
      CanonicalValid(b);
      StringifyInjective(Canonical(a), Canonical(b));
      CanonicalSound(a, b);
    }
  }

  // ---------------------------------------------------------------- storage keys

  /** `args ?? {}` */
  function DefaultArgs(args: Value): Value {
    if args.Null? then Obj([]) else args
  }

  function StorageKey(scope: Text, path: Text, args: Value): Text {
    scope + [NUL] + path + [NUL] + StableStringify(DefaultArgs(args))
  }

  /** The prefix `clear(scope)` removes. */
  function ScopePrefix(scope: Text): Text {
    scope + [NUL]
  }

  lemma StableHasNoNul(v: Value)
    requires Valid(v)
    ensures NUL !in StableStringify(v)
  {
    StableIsCanonical(v);
    CanonicalValid(v);
    StringifyPrintable(Canonical(v));
  }

  /** For any scopes and paths, two keys are equal exactly when scope and path, joined, are equal
      and the arguments are equal up to key order. */
  lemma StorageKeyCollision(scope: Text, path: Text, args: Value, scope': Text, path': Text, args': Value)
    requires Valid(args) && Valid(args')
    ensures StorageKey(scope, path, args) == StorageKey(scope', path', args')
            <==> scope + [NUL] + path == scope' + [NUL] + path' && SameValue(DefaultArgs(args), DefaultArgs(args'))
  {
    var d, d' := DefaultArgs(args), DefaultArgs(args');
    StableStringifyCanonical(d, d');
    if StorageKey(scope, path, args) == StorageKey(scope', path', args') {
      StableHasNoNul(d);
      StableHasNoNul(d');
      SplitAtLast(scope + [NUL] + path, scope' + [NUL] + path', StableStringify(d), StableStringify(d'), NUL);
    }
  }

  /** Scopes without U+0000 (the paths may hold one): keys collide only for the same query. */
  lemma StorageKeyInjective(scope: Text, path: Text, args: Value, scope': Text, path': Text, args': Value)
    requires Valid(args) && Valid(args') && NUL !in scope && NUL !in scope'
    ensures StorageKey(scope, path, args) == StorageKey(scope', path', args')
            <==> scope == scope' && path == path' && SameValue(DefaultArgs(args), DefaultArgs(args'))
  {
    StorageKeyCollision(scope, path, args, scope', path', args');
    if scope + [NUL] + path == scope' + [NUL] + path' {
      SplitAtFirst(scope, scope', path, path', NUL);
    }
  }

  /** Without that restriction two different queries can share a key. */
  lemma StorageKeyCollides()
    ensures StorageKey([], [NUL], Null) == StorageKey([NUL], [], Null)
  {
    assert [] + [NUL] + [NUL] == [NUL] + [NUL] + [];
  }

  /** `clear(scope)` removes a key exactly when the scope, with its U+0000, is a prefix of the key's scope and path, each
      with its U+0000: for any scopes and paths. */
  lemma ClearScopeExact(scope: Text, keyScope: Text, path: Text, args: Value)
    requires Valid(args)
    ensures ScopePrefix(scope) <= StorageKey(keyScope, path, args)
            <==> ScopePrefix(scope) <= keyScope + [NUL] + path + [NUL]
  {
    var p, head, text := ScopePrefix(scope), keyScope + [NUL] + path + [NUL], StableStringify(DefaultArgs(args));
    assert StorageKey(keyScope, path, args) == head + text;
    StableHasNoNul(DefaultArgs(args));
    if p <= head + text {
      EndsInHead(p, head, text);
      assert p == (head + text)[..|p|] == head[..|p|];
    }
  }

  lemma EndsInHead(p: Text, head: Text, text: Text)
    requires p != [] && p[|p| - 1] == NUL && NUL !in text && p <= head + text
    ensures |p| <= |head|
  {
    var whole := head + text;
    assert whole[|p| - 1] == NUL;
    assert forall i :: |head| <= i < |whole| ==> whole[i] == text[i - |head|];
  }

  /** For a scope without U+0000: when the key has that scope, or one that extends it past a U+0000; for a key whose scope
      holds none, exactly when the scopes are equal. */
  lemma ClearPlainScope(scope: Text, keyScope: Text, path: Text, args: Value)
    requires NUL !in scope
    ensures ScopePrefix(scope) <= StorageKey(keyScope, path, args)
            <==> keyScope == scope || ScopePrefix(scope) <= keyScope
    ensures NUL !in keyScope ==> !(ScopePrefix(scope) <= keyScope)
  {
    var key, p := StorageKey(keyScope, path, args), ScopePrefix(scope);
    var rest := path + [NUL] + StableStringify(DefaultArgs(args));
    assert key == keyScope + [NUL] + rest;
    if p <= key && |p| > |keyScope| {
      assert key[|keyScope|] == p[|keyScope|] == NUL;
      assert |keyScope| == |scope|;
      assert keyScope == key[..|keyScope|] == p[..|scope|] == scope;
    }
    if p <= key && |p| <= |keyScope| {
      assert p == key[..|p|] == keyScope[..|p|];
    }
    assert p <= keyScope ==> keyScope[|scope|] == NUL;
  }
}
