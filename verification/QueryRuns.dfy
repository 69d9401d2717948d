/** Runs of calls on the query cache store (packages/client/src/kv-stores.ts). */
module QueryRuns {
  import opened Texts
  import opened Options
  import opened OrderedMaps
  import opened StableKeys
  import opened QueryEviction
  import opened QueryCache
  import Json

  /** Calls one after the other, from the table an earlier session left. */
  ghost function Run(c: Config, start: Table, calls: seq<Call>): State {
    if calls == [] then Opened(start)
    else Step(c, Run(c, start, calls[..|calls| - 1]), calls[|calls| - 1]).0
  }

  /** What the calls of the run answered. */
  ghost function Answers(c: Config, start: Table, calls: seq<Call>): (r: seq<Response>)
    ensures |r| == |calls|
  {
    if calls == [] then []
    else
      var before := calls[..|calls| - 1];
      Answers(c, start, before) + [AnswerTo(c, start, before, calls[|calls| - 1])]
  }

  ghost predicate Accepted(call: Call, answer: Response) {
    call.Write? && answer == Outcome(Written)
  }

  /** Call `i` is an accepted write under `key`. */
  ghost predicate AcceptedUnder(calls: seq<Call>, answers: seq<Response>, i: nat, key: Text)
    requires i < |calls| == |answers|
  {
    Accepted(calls[i], answers[i]) && KeyOf(calls[i]) == key
  }

  /** Where what is stored under a key comes from: the start, a call, or nowhere, since it was removed on purpose. */
  datatype Origin = Initial | ByCall(i: nat) | Gone

  ghost function OriginOf(calls: seq<Call>, answers: seq<Response>, key: Text): Origin
    requires |calls| == |answers|
  {
    if calls == [] then Initial
    else
      var n := |calls| - 1;
      if AcceptedUnder(calls, answers, n, key) then ByCall(n)
      else if Removes(calls[n], key) then Gone
      else OriginOf(calls[..n], answers[..n], key)
  }

  /** No call from `i` on has written or removed the key. */
  ghost predicate UntouchedFrom(calls: seq<Call>, answers: seq<Response>, i: nat, key: Text)
    requires |calls| == |answers|
  {
    forall j :: i <= j < |calls| ==> !AcceptedUnder(calls, answers, j, key) && !Removes(calls[j], key)
  }

  lemma {:induction false} OriginIsLast(calls: seq<Call>, answers: seq<Response>, key: Text)
    requires |calls| == |answers|
    ensures match OriginOf(calls, answers, key)
            case Initial => UntouchedFrom(calls, answers, 0, key)
            case ByCall(i) =>
              i < |calls| && AcceptedUnder(calls, answers, i, key) && UntouchedFrom(calls, answers, i + 1, key)
            case Gone => true
  {
    if calls != [] {
      var n := |calls| - 1;
      OriginIsLast(calls[..n], answers[..n], key);
      assert forall j :: 0 <= j < n ==>
        AcceptedUnder(calls[..n], answers[..n], j, key) == AcceptedUnder(calls, answers, j, key);
    }
  }

  ghost predicate Mirrors(record: Record, call: Call) {
    call.Write? && SameRecord(Parsed(record), Parsed(NewRecord(call)))
  }

  /** What is found under `key` comes from where its origin says. */
  ghost predicate MirroredAt(start: Table, calls: seq<Call>, answers: seq<Response>, table: Table, key: Text)
    requires |calls| == |answers| && Find(table, key).Some?
  {
    var stored := Find(table, key).value;
    match OriginOf(calls, answers, key)
    case Initial => Find(start, key).Some? && SameRecord(Find(start, key).value, stored)
    case ByCall(i) => stored.Parsed? && i < |calls| && Mirrors(stored.record, calls[i])
    case Gone => false
  }

  ghost predicate TableMirrors(start: Table, calls: seq<Call>, answers: seq<Response>, table: Table)
    requires |calls| == |answers|
  {
    forall key :: Find(table, key).Some? ==> MirroredAt(start, calls, answers, table, key)
  }

  lemma ApplyUnique(t: Table, change: Change)
    requires UniqueKeys(t)
    ensures UniqueKeys(Apply(t, change))
  {
    match change
    case Keep =>
    case Drop(keys) => WithoutUnique(t, keys);
    case Touch(key, record) => PutUnique(t, key, Parsed(record));
    case Store(key, record, dropped) =>
      PutUnique(t, key, Parsed(record));
      WithoutUnique(Put(t, key, Parsed(record)), dropped);
  }

  /** What is found under `x` after the change. */
  ghost function FoundAfter(t: Table, change: Change, x: Text): Option<Stored> {
    match change
    case Keep => Find(t, x)
    case Drop(keys) => if x in keys then None else Find(t, x)
    case Touch(key, record) => if x == key then Some(Parsed(record)) else Find(t, x)
    case Store(key, record, dropped) =>
      if x in dropped then None else if x == key then Some(Parsed(record)) else Find(t, x)
  }

  lemma ApplyFind(t: Table, change: Change, x: Text)
    requires UniqueKeys(t)
    ensures Find(Apply(t, change), x) == FoundAfter(t, change, x)
  {
    match change
    case Keep =>
    case Drop(keys) => WithoutFind(t, keys, x);
    case Touch(key, record) => PutFind(t, key, Parsed(record), x);
    case Store(key, record, dropped) =>
      PutUnique(t, key, Parsed(record));
      PutFind(t, key, Parsed(record), x);
      WithoutFind(Put(t, key, Parsed(record)), dropped, x);
  }

  lemma StepUnique(c: Config, s: State, call: Call)
    requires UniqueKeys(s.table)
    ensures UniqueKeys(Step(c, s, call).0.table)
  {
    ApplyUnique(s.table, EffectOf(c, s, call).change);
  }

  /** Where what is found under `key` after a call comes from: an accepted write, or the table before. */
  ghost predicate FoundFrom(s: State, call: Call, response: Response, next: Table, key: Text)
    requires Find(next, key).Some?
  {
    var now := Find(next, key).value;
    if call.Write? && response == Outcome(Written) && KeyOf(call) == key then now == Parsed(NewRecord(call))
    else !Removes(call, key) && Find(s.table, key).Some? && SameRecord(Find(s.table, key).value, now)
  }

  lemma ReadFindsFrom(c: Config, s: State, call: Call, key: Text)
    requires UniqueKeys(s.table) && Step(c, s, call).0.readsEnabled && call.Read?
    requires Find(Step(c, s, call).0.table, key).Some?
    ensures FoundFrom(s, call, Step(c, s, call).1, Step(c, s, call).0.table, key)
  {
    ApplyFind(s.table, EffectOf(c, s, call).change, key);
  }

  lemma WriteFindsFrom(c: Config, s: State, call: Call, key: Text)
    requires UniqueKeys(s.table) && Step(c, s, call).0.readsEnabled && call.Write?
    requires Find(Step(c, s, call).0.table, key).Some?
    ensures FoundFrom(s, call, Step(c, s, call).1, Step(c, s, call).0.table, key)
  {
    ApplyFind(s.table, EffectOf(c, s, call).change, key);
  }

  lemma RemoveFindsFrom(c: Config, s: State, call: Call, key: Text)
    requires UniqueKeys(s.table) && (call.Delete? || call.Clear?)
    requires Find(Step(c, s, call).0.table, key).Some?
    ensures FoundFrom(s, call, Step(c, s, call).1, Step(c, s, call).0.table, key)
  {
    ApplyFind(s.table, EffectOf(c, s, call).change, key);
  }

  lemma StepFinds(c: Config, s: State, call: Call, key: Text)
    requires UniqueKeys(s.table) && Step(c, s, call).0.readsEnabled
    requires Find(Step(c, s, call).0.table, key).Some?
    ensures FoundFrom(s, call, Step(c, s, call).1, Step(c, s, call).0.table, key)
  {
    match call
    case Read(_, _, _, _, _, _) => ReadFindsFrom(c, s, call, key);
    case Write(_, _, _, _, _, _, _) => WriteFindsFrom(c, s, call, key);
    case _ => RemoveFindsFrom(c, s, call, key);
  }

  /** Equal but for the access time. */
  ghost predicate SameRecord(a: Stored, b: Stored) {
    match (a, b)
    case (Parsed(r), Parsed(q)) => r.(lastAccessedAt := 0) == q.(lastAccessedAt := 0)
    case _ => a == b
  }

  lemma {:induction false} RunMirrors(c: Config, start: Table, calls: seq<Call>)
    requires UniqueKeys(start)
    ensures UniqueKeys(Run(c, start, calls).table)
    ensures Run(c, start, calls).readsEnabled ==>
              TableMirrors(start, calls, Answers(c, start, calls), Run(c, start, calls).table)
  {
    if calls == [] {
      StartMirrors(start);
    } else {
      var n := |calls| - 1;
      var before, call := calls[..n], calls[n];
      RunMirrors(c, start, before);
      StepUnique(c, Run(c, start, before), call);
      if Run(c, start, calls).readsEnabled {
        AnswersLast(c, start, calls);
        StepMirrors(c, start, Run(c, start, before), calls, Answers(c, start, calls));
      }
    }
  }

  lemma StartMirrors(start: Table)
    ensures TableMirrors(start, [], [], start)
  {
  }

  lemma StepMirrors(c: Config, start: Table, s: State, calls: seq<Call>, answers: seq<Response>)
    requires |calls| == |answers| > 0 && UniqueKeys(s.table)
    requires var n := |calls| - 1;
             answers[n] == Step(c, s, calls[n]).1 && Step(c, s, calls[n]).0.readsEnabled
             && TableMirrors(start, calls[..n], answers[..n], s.table)
    ensures TableMirrors(start, calls, answers, Step(c, s, calls[|calls| - 1]).0.table)
  {
    var n := |calls| - 1;
    var next := Step(c, s, calls[n]).0.table;
    forall key | Find(next, key).Some? ensures MirroredAt(start, calls, answers, next, key) {
      StepFinds(c, s, calls[n], key);
      KeyMirrored(start, calls, answers, s, next, key);
    }
  }

  lemma KeyMirrored(start: Table, calls: seq<Call>, answers: seq<Response>, s: State, next: Table, key: Text)
    requires |calls| == |answers| > 0 && Find(next, key).Some?
    requires var n := |calls| - 1;
             && FoundFrom(s, calls[n], answers[n], next, key)
             && TableMirrors(start, calls[..n], answers[..n], s.table)
    ensures MirroredAt(start, calls, answers, next, key)
  {
    var n := |calls| - 1;
    if !AcceptedUnder(calls, answers, n, key) {
      assert MirroredAt(start, calls[..n], answers[..n], s.table, key);
    }
  }

  function LookupOf(record: Record, now: int): Lookup {
    Lookup(record.result, record.revision, record.writtenAt, now - record.writtenAt)
  }

  /** A read that hits finds a record that is young enough. */
  lemma HitIsFound(c: Config, s: State, read: Call)
    requires read.Read? && Step(c, s, read).1.Hit?
    ensures s.readsEnabled && Found(s.table, KeyOf(read)).Some?
    ensures Step(c, s, read).1.lookup == LookupOf(Found(s.table, KeyOf(read)).value, read.now)
    ensures var l := Step(c, s, read).1.lookup;
            l.ageMs <= c.maxAgeMs && (read.ageMs.Some? ==> l.ageMs <= read.ageMs.value)
  {
  }

  /** A lookup returned by a read is the last accepted write under its key or, when the run has accepted none, the
      record found there at the start; no later write under that key was accepted, and no delete or clear has
      covered it since. It is never older than allowed. */
  lemma ReadReturnsLastAccepted(c: Config, start: Table, calls: seq<Call>, read: Call) returns (i: Option<nat>)
    requires UniqueKeys(start) && read.Read? && Step(c, Run(c, start, calls), read).1.Hit?
    ensures i.Some? ==> i.value < |calls| && AcceptedUnder(calls, Answers(c, start, calls), i.value, KeyOf(read))
    ensures i.None? ==> Found(start, KeyOf(read)).Some?
    ensures UntouchedFrom(calls, Answers(c, start, calls), if i.Some? then i.value + 1 else 0, KeyOf(read))
    ensures var l := Step(c, Run(c, start, calls), read).1.lookup;
            && l == LookupOf(if i.Some? then NewRecord(calls[i.value]) else Found(start, KeyOf(read)).value, read.now)
            && l.ageMs <= c.maxAgeMs && (read.ageMs.Some? ==> l.ageMs <= read.ageMs.value)
  {
    var s, key, answers := Run(c, start, calls), KeyOf(read), Answers(c, start, calls);
    RunMirrors(c, start, calls);
    HitIsFound(c, s, read);
    assert MirroredAt(start, calls, answers, s.table, key);
    OriginIsLast(calls, answers, key);
    i := match OriginOf(calls, answers, key) case ByCall(n) => Some(n) case _ => None;
  }

  /** The same in terms of queries, for scopes without U+0000: the write was for the same scope and
      path, with arguments equal up to key order. */
  lemma ReadReturnsOwnQuery(c: Config, start: Table, calls: seq<Call>, read: Call) returns (i: Option<nat>)
    requires UniqueKeys(start) && read.Read? && Step(c, Run(c, start, calls), read).1.Hit?
    requires ProperQuery(read) && forall call :: call in calls && call.Write? ==> ProperQuery(call)
    ensures var answers := Answers(c, start, calls);
            && (i.Some? ==>
                  && i.value < |calls| && Accepted(calls[i.value], answers[i.value])
                  && SameQuery(calls[i.value], read)
                  && Step(c, Run(c, start, calls), read).1.lookup.result == calls[i.value].result)
            && (i.None? ==>
                  && Found(start, KeyOf(read)).Some?
                  && Step(c, Run(c, start, calls), read).1.lookup.result == Found(start, KeyOf(read)).value.result)
            && forall j :: (if i.Some? then i.value + 1 else 0) <= j < |calls| && Accepted(calls[j], answers[j]) ==>
                 !SameQuery(calls[j], read)
  {
    i := ReadReturnsLastAccepted(c, start, calls, read);
    var answers := Answers(c, start, calls);
    if i.Some? {
      assert calls[i.value] in calls;
      SameKeySameQuery(calls[i.value], read);
    }
    forall j | (if i.Some? then i.value + 1 else 0) <= j < |calls| && Accepted(calls[j], answers[j])
      ensures !SameQuery(calls[j], read)
    {
      assert !AcceptedUnder(calls, answers, j, KeyOf(read));
      assert calls[j] in calls;
      SameKeySameQuery(calls[j], read);
    }
  }

  /** A query whose scope holds no U+0000. */
  ghost predicate ProperQuery(a: Call)
    requires !a.Clear?
  {
    NUL !in a.scope && Json.Valid(a.args)
  }

  lemma SameKeySameQuery(a: Call, b: Call)
    requires !a.Clear? && !b.Clear? && ProperQuery(a) && ProperQuery(b)
    ensures KeyOf(a) == KeyOf(b) <==> SameQuery(a, b)
  {
    StorageKeyInjective(a.scope, a.path, a.args, b.scope, b.path, b.args);
  }

  ghost predicate SameQuery(a: Call, b: Call)
    requires !a.Clear? && !b.Clear?
  {
    a.scope == b.scope && a.path == b.path && SameValue(DefaultArgs(a.args), DefaultArgs(b.args))
  }

  /** While `key` stays in the table its revision never goes down. */
  lemma StepRevision(c: Config, s: State, call: Call, key: Text)
    requires UniqueKeys(s.table)
    requires Found(s.table, key).Some? && Found(Step(c, s, call).0.table, key).Some?
    ensures LexLeq(Found(s.table, key).value.revision, Found(Step(c, s, call).0.table, key).value.revision)
  {
    var r := Found(s.table, key).value.revision;
    LexTotal(r, r);
    if call.Write? {
      LexTotal(r, call.revision);
    }
    ApplyFind(s.table, EffectOf(c, s, call).change, key);
  }

  lemma AcceptedIsNewer(c: Config, s: State, call: Call)
    requires call.Write? && Step(c, s, call).1 == Outcome(Written) && Found(s.table, KeyOf(call)).Some?
    ensures LexLess(Found(s.table, KeyOf(call)).value.revision, call.revision)
  {
  }

  /** Between removals the accepted revisions of a key strictly increase. */
  lemma RevisionsIncrease(c: Config, start: Table, calls: seq<Call>, i: nat, j: nat)
    requires UniqueKeys(start) && i < j < |calls| && calls[i].Write?
    requires AcceptedUnder(calls, Answers(c, start, calls), i, KeyOf(calls[i]))
    requires AcceptedUnder(calls, Answers(c, start, calls), j, KeyOf(calls[i]))
    requires forall m :: i < m <= j ==> Found(Run(c, start, calls[..m]).table, KeyOf(calls[i])).Some?
    ensures LexLess(calls[i].revision, calls[j].revision)
  {
    var key := KeyOf(calls[i]);
    RevisionKept(c, start, calls, i, j);
    AnswersAt(c, start, calls, j);
    var r := Found(Run(c, start, calls[..j]).table, key).value.revision;
    AcceptedIsNewer(c, Run(c, start, calls[..j]), calls[j]);
    LexTotal(r, calls[j].revision);
    LexLessTransitive(calls[i].revision, r, calls[j].revision);
  }

  lemma RunStep(c: Config, start: Table, calls: seq<Call>, i: nat)
    requires i < |calls|
    ensures Run(c, start, calls[..i + 1]) == Step(c, Run(c, start, calls[..i]), calls[i]).0
  {
    var first := calls[..i + 1];
    assert first[..i] == calls[..i] && first[i] == calls[i] && |first| - 1 == i;
  }

  ghost function AnswerTo(c: Config, start: Table, before: seq<Call>, call: Call): Response {
    Step(c, Run(c, start, before), call).1
  }

  lemma AnswersLast(c: Config, start: Table, calls: seq<Call>)
    requires calls != []
    ensures var n := |calls| - 1;
            && Answers(c, start, calls)[..n] == Answers(c, start, calls[..n])
            && Answers(c, start, calls)[n] == AnswerTo(c, start, calls[..n], calls[n])
  {
  }

  lemma {:induction false} AnswersAt(c: Config, start: Table, calls: seq<Call>, i: nat)
    requires i < |calls|
    ensures Answers(c, start, calls)[i] == AnswerTo(c, start, calls[..i], calls[i])
    decreases |calls|
  {
    if i < |calls| - 1 {
      EarlierAnswer(c, start, calls, i);
    } else {
      AnswersLast(c, start, calls);
    }
  }

  lemma EarlierAnswer(c: Config, start: Table, calls: seq<Call>, i: nat)
    requires i < |calls| - 1
    ensures Answers(c, start, calls)[i] == AnswerTo(c, start, calls[..i], calls[i])
    decreases |calls|, 0
  {
    var before := calls[..|calls| - 1];
    AnswersLast(c, start, calls);
    AnswersAt(c, start, before, i);
    assert before[..i] == calls[..i] && before[i] == calls[i];
    assert Answers(c, start, calls)[i] == Answers(c, start, calls)[..|before|][i];
  }

  lemma {:induction false} RevisionKept(c: Config, start: Table, calls: seq<Call>, i: nat, m: nat)
    requires UniqueKeys(start) && i < m <= |calls| && Accepted(calls[i], Answers(c, start, calls)[i])
    requires forall k :: i < k <= m ==> Found(Run(c, start, calls[..k]).table, KeyOf(calls[i])).Some?
    ensures LexLeq(calls[i].revision, Found(Run(c, start, calls[..m]).table, KeyOf(calls[i])).value.revision)
    decreases m
  {
    var key := KeyOf(calls[i]);
    RunMirrors(c, start, calls[..m - 1]);
    RunStep(c, start, calls, m - 1);
    var s := Run(c, start, calls[..m - 1]);
    if m == i + 1 {
      AnswersAt(c, start, calls, i);
      WrittenRecord(c, s, calls[i]);
      LexTotal(calls[i].revision, calls[i].revision);
    } else {
      RevisionKept(c, start, calls, i, m - 1);
      StepRevision(c, s, calls[m - 1], key);
      LexTransitive(calls[i].revision, Found(s.table, key).value.revision,
                    Found(Run(c, start, calls[..m]).table, key).value.revision);
    }
  }

  lemma WrittenRecord(c: Config, s: State, call: Call)
    requires UniqueKeys(s.table) && call.Write? && Step(c, s, call).1 == Outcome(Written)
    ensures var found := Found(Step(c, s, call).0.table, KeyOf(call));
            found.Some? ==> found.value == NewRecord(call)
  {
    ApplyFind(s.table, EffectOf(c, s, call).change, KeyOf(call));
  }

  /** No other row was accessed later, and those accessed at the same time stand before the key's own place: its
      old one, or the end. */
  ghost predicate AccessedBefore(table: Table, key: Text, now: int) {
    forall j :: 0 <= j < |table| && table[j].value.Parsed? && table[j].key != key ==>
      || AccessTime(table[j].value) < now
      || (AccessTime(table[j].value) == now && forall i :: 0 <= i < |table| && table[i].key == key ==> j < i)
  }

  /** What was just written is there exactly when its size is within the scope's and the table's byte caps, provided
      it counts as accessed last. */
  lemma WriteSurvivesExactly(c: Config, s: State, write: Call)
    requires ValidConfig(c) && UniqueKeys(s.table)
    requires write.Write? && Step(c, s, write).1 == Outcome(Written)
    requires AccessedBefore(s.table, KeyOf(write), write.now)
    ensures Find(Step(c, s, write).0.table, KeyOf(write)) == Some(Parsed(NewRecord(write)))
            <==> Json.JsonSize(write.result) <= c.limits.maxBytesPerScope
                 && Json.JsonSize(write.result) <= c.limits.maxBytes
  {
    WrittenTable(c, s, write);
    NewestSurvivesExactly(s.table, c.limits, KeyOf(write), NewRecord(write));
  }

  lemma WrittenTable(c: Config, s: State, write: Call)
    requires write.Write? && Step(c, s, write).1 == Outcome(Written)
    ensures Step(c, s, write).0.table
         == AfterEviction(Put(s.table, KeyOf(write), Parsed(NewRecord(write))), c.limits)
    ensures NewRecord(write).lastAccessedAt == write.now && NewRecord(write).sizeBytes == Json.JsonSize(write.result)
  {
  }

  lemma NewestIsLatest(table: Table, key: Text, record: Record) returns (p: nat)
    requires UniqueKeys(table) && AccessedBefore(table, key, record.lastAccessedAt)
    ensures var t := Put(table, key, Parsed(record));
            LatestAt(t, p) && t[p] == Entry(key, Parsed(record))
  {
    p := PutPlace(table, key, Parsed(record));
    var t := Put(table, key, Parsed(record));
    forall j | 0 <= j < |t| && j != p && t[j].value.Parsed?
      ensures AccessTime(t[j].value) < record.lastAccessedAt
              || (AccessTime(t[j].value) == record.lastAccessedAt && j < p)
    {
      assert t[j] == table[j];
      assert p == |table| ==> table[j].key in KeySet(table);
    }
  }

  lemma NewestSurvivesExactly(table: Table, limits: Limits, key: Text, record: Record)
    requires UniqueKeys(table) && AccessedBefore(table, key, record.lastAccessedAt)
    requires limits.maxEntriesPerScope > 0 && limits.maxBytesPerScope > 0 && limits.maxBytes > 0
    ensures Find(AfterEviction(Put(table, key, Parsed(record)), limits), key) == Some(Parsed(record))
            <==> record.sizeBytes <= limits.maxBytesPerScope && record.sizeBytes <= limits.maxBytes
  {
    var t := Put(table, key, Parsed(record));
    PutUnique(table, key, Parsed(record));
    var p := NewestIsLatest(table, key, record);
    LatestSurvivesExactly(t, limits, p);
    AfterEvictionRows(t, limits);
    FindMember(AfterEviction(t, limits), Entry(key, Parsed(record)));
  }

  /** With equal access times the place in the table decides: a key that is written again within one tick of the
      clock, before another of its scope that was written in the same tick, is lost when the two do not fit
      together. */
  lemma RewriteIsLost(c: Config, s: State, write: Call, was: Record, other: Text, beside: Record)
    requires write.Write? && Step(c, s, write).1 == Outcome(Written)
    requires s.table == [Entry(KeyOf(write), Parsed(was)), Entry(other, Parsed(beside))] && other != KeyOf(write)
    requires beside.scope == write.scope && beside.lastAccessedAt == write.now
    requires c.limits.maxEntriesPerScope > 0
    requires beside.sizeBytes <= c.limits.maxBytesPerScope && beside.sizeBytes <= c.limits.maxBytes
    requires Json.JsonSize(write.result) + beside.sizeBytes > c.limits.maxBytesPerScope
    ensures Find(Step(c, s, write).0.table, KeyOf(write)) == None
  {
    var key, record := KeyOf(write), NewRecord(write);
    WrittenTable(c, s, write);
    var t := Put(s.table, key, Parsed(record));
    assert t == [Entry(key, Parsed(record)), Entry(other, Parsed(beside))];
    FirstOfTwoIsLost(t, Row(key, record), Row(other, beside), c.limits);
    NoOtherFound(t, c.limits, key, record);
  }

  lemma NoOtherFound(t: Table, limits: Limits, key: Text, record: Record)
    requires UniqueKeys(t) && Entry(key, Parsed(record)) in t
    requires Entry(key, Parsed(record)) !in AfterEviction(t, limits)
    ensures Find(AfterEviction(t, limits), key) == None
  {
    if Find(AfterEviction(t, limits), key).Some? {
      var e := Entry(key, Find(AfterEviction(t, limits), key).value);
      WithoutMember(t, EvictedKeys(t, limits), e);
      FindMember(t, e);
      FindMember(t, Entry(key, Parsed(record)));
      assert false;
    }
  }

  /** A cache that can hold its largest entry never loses what it just wrote: reading the same query
      next, with the backend working and within the age limit, returns it. */
  lemma WriteThenRead(c: Config, s: State, write: Call, read: Call)
    requires ValidConfig(c) && UniqueKeys(s.table) && s.readsEnabled
    requires c.maxEntryBytes <= c.limits.maxBytesPerScope && c.maxEntryBytes <= c.limits.maxBytes
    requires write.Write? && Step(c, s, write).1 == Outcome(Written)
    requires AccessedBefore(s.table, KeyOf(write), write.now)
    requires read.Read? && read.fault.Works? && Json.Valid(read.args) && Json.Valid(write.args) && SameQuery(read, write)
    requires read.now - write.now <= c.maxAgeMs
    requires read.ageMs.Some? ==> read.now - write.now <= read.ageMs.value
    ensures Step(c, Step(c, s, write).0, read).1
            == Hit(Lookup(write.result, write.revision, write.now, read.now - write.now))
  {
    StorageKeyCollision(read.scope, read.path, read.args, write.scope, write.path, write.args);
    WriteSurvivesExactly(c, s, write);
    ReadFinds(c, Step(c, s, write).0, read, NewRecord(write));
  }

  lemma ReadFinds(c: Config, s: State, read: Call, record: Record)
    requires read.Read? && read.fault.Works? && s.readsEnabled && read.scope != []
    requires Find(s.table, KeyOf(read)) == Some(Parsed(record))
    requires read.now - record.writtenAt <= c.maxAgeMs
    requires read.ageMs.Some? ==> read.now - record.writtenAt <= read.ageMs.value
    ensures Step(c, s, read).1
            == Hit(Lookup(record.result, record.revision, record.writtenAt, read.now - record.writtenAt))
  {
  }

  // ---------------------------------------------------------------- caps over a run

  function HeadSize(t: Table): nat
    requires t != []
  {
    match t[0].value case Parsed(record) => record.sizeBytes case Corrupt => 0
  }

  predicate HeadInScope(t: Table, scope: Text)
    requires t != []
  {
    match t[0].value case Parsed(record) => record.scope == scope case Corrupt => false
  }

  /** How the sums over a table's rows start with its first entry. */
  lemma HeadRow(t: Table, scope: Text)
    requires t != []
    ensures Bytes(RowsOf(t)) == HeadSize(t) + Bytes(RowsOf(t[1..]))
    ensures |OfScope(RowsOf(t), scope)|
            == (if HeadInScope(t, scope) then 1 else 0) + |OfScope(RowsOf(t[1..]), scope)|
    ensures Bytes(OfScope(RowsOf(t), scope))
            == (if HeadInScope(t, scope) then HeadSize(t) else 0) + Bytes(OfScope(RowsOf(t[1..]), scope))
  {
    if t[0].value.Parsed? {
      var row := Row(t[0].key, t[0].value.record);
      Prepend(row, RowsOf(t[1..]), scope);
      Prepend(row, OfScope(RowsOf(t[1..]), scope), scope);
    } else {
      assert RowsOf(t) == RowsOf(t[1..]);
    }
  }

  lemma {:induction false} RemovalShrinks(t: Table, ks: set<Text>, scope: Text)
    ensures |OfScope(RowsOf(Without(t, ks)), scope)| <= |OfScope(RowsOf(t), scope)|
    ensures Bytes(OfScope(RowsOf(Without(t, ks)), scope)) <= Bytes(OfScope(RowsOf(t), scope))
    ensures Bytes(RowsOf(Without(t, ks))) <= Bytes(RowsOf(t))
  {
    if t != [] {
      RemovalShrinks(t[1..], ks, scope);
      HeadRow(t, scope);
      if t[0].key !in ks {
        assert Without(t, ks)[1..] == Without(t[1..], ks);
        HeadRow(Without(t, ks), scope);
      }
    }
  }

  lemma {:induction false} TouchKeepsSizes(t: Table, key: Text, record: Record, scope: Text)
    requires var was := Found(t, key);
             was.Some? && was.value.scope == record.scope && was.value.sizeBytes == record.sizeBytes
    ensures |OfScope(RowsOf(Put(t, key, Parsed(record))), scope)| == |OfScope(RowsOf(t), scope)|
    ensures Bytes(OfScope(RowsOf(Put(t, key, Parsed(record))), scope)) == Bytes(OfScope(RowsOf(t), scope))
    ensures Bytes(RowsOf(Put(t, key, Parsed(record)))) == Bytes(RowsOf(t))
  {
    var next := Put(t, key, Parsed(record));
    HeadRow(t, scope);
    HeadRow(next, scope);
    if t[0].key == key {
      assert next[1..] == t[1..];
    } else {
      TouchKeepsSizes(t[1..], key, record, scope);
      assert next[1..] == Put(t[1..], key, Parsed(record));
    }
  }

  lemma DropKeepsCaps(t: Table, ks: set<Text>, limits: Limits)
    requires WithinCaps(t, limits)
    ensures WithinCaps(Without(t, ks), limits)
  {
    RemovalShrinks(t, ks, []);
    forall scope
      ensures |OfScope(RowsOf(Without(t, ks)), scope)| <= limits.maxEntriesPerScope
      ensures Bytes(OfScope(RowsOf(Without(t, ks)), scope)) <= limits.maxBytesPerScope
    {
      RemovalShrinks(t, ks, scope);
      assert |OfScope(RowsOf(t), scope)| <= limits.maxEntriesPerScope;
    }
  }

  lemma TouchKeepsCaps(t: Table, key: Text, record: Record, limits: Limits)
    requires WithinCaps(t, limits)
    requires var was := Found(t, key);
             was.Some? && was.value.scope == record.scope && was.value.sizeBytes == record.sizeBytes
    ensures WithinCaps(Put(t, key, Parsed(record)), limits)
  {
    TouchKeepsSizes(t, key, record, []);
    forall scope
      ensures |OfScope(RowsOf(Put(t, key, Parsed(record))), scope)| <= limits.maxEntriesPerScope
      ensures Bytes(OfScope(RowsOf(Put(t, key, Parsed(record))), scope)) <= limits.maxBytesPerScope
    {
      TouchKeepsSizes(t, key, record, scope);
      assert |OfScope(RowsOf(t), scope)| <= limits.maxEntriesPerScope;
    }
  }

  /** A call during which nothing fails keeps the caps; an accepted write restores them. */
  lemma StepKeepsCaps(c: Config, s: State, call: Call)
    requires ValidConfig(c) && UniqueKeys(s.table) && WithinCaps(s.table, c.limits)
    requires !EffectOf(c, s, call).fails && !call.Write?
    ensures WithinCaps(Step(c, s, call).0.table, c.limits)
  {
    match EffectOf(c, s, call).change
    case Keep =>
    case Drop(keys) => DropKeepsCaps(s.table, keys, c.limits);
    case Touch(key, record) => TouchKeepsCaps(s.table, key, record, c.limits);
  }

  lemma WriteMeetsCaps(c: Config, s: State, call: Call)
    requires ValidConfig(c) && UniqueKeys(s.table) && call.Write? && Step(c, s, call).1 == Outcome(Written)
    ensures WithinCaps(Step(c, s, call).0.table, c.limits)
  {
    WrittenTable(c, s, call);
    PutUnique(s.table, KeyOf(call), Parsed(NewRecord(call)));
    EvictionMeetsCaps(Put(s.table, KeyOf(call), Parsed(NewRecord(call))), c.limits);
  }

  lemma RefusedWriteKeeps(c: Config, s: State, call: Call)
    requires call.Write? && !EffectOf(c, s, call).fails && Step(c, s, call).1 != Outcome(Written)
    ensures Step(c, s, call).0.table == s.table
  {
  }

  /** The run has accepted a write. */
  ghost predicate AcceptedAny(c: Config, start: Table, calls: seq<Call>) {
    exists i :: 0 <= i < |calls| && Accepted(calls[i], Answers(c, start, calls)[i])
  }

  lemma AcceptedAnyLast(c: Config, start: Table, calls: seq<Call>)
    requires calls != []
    ensures var n := |calls| - 1;
            AcceptedAny(c, start, calls)
            ==> AcceptedAny(c, start, calls[..n]) || Accepted(calls[n], AnswerTo(c, start, calls[..n], calls[n]))
  {
    var n := |calls| - 1;
    AnswersLast(c, start, calls);
    if AcceptedAny(c, start, calls) {
      var i :| 0 <= i < |calls| && Accepted(calls[i], Answers(c, start, calls)[i]);
      if i < n {
        assert Accepted(calls[..n][i], Answers(c, start, calls[..n])[i]);
      }
    }
  }

  /** As long as no backend operation has failed, the table is within all three caps from the first accepted write
      on, and from the start if it was so then. */
  lemma {:induction false} RunWithinCaps(c: Config, start: Table, calls: seq<Call>)
    requires ValidConfig(c) && UniqueKeys(start)
    ensures UniqueKeys(Run(c, start, calls).table)
    ensures Run(c, start, calls).writesEnabled && (WithinCaps(start, c.limits) || AcceptedAny(c, start, calls))
            ==> WithinCaps(Run(c, start, calls).table, c.limits)
  {
    if calls != [] {
      var n := |calls| - 1;
      var s, call := Run(c, start, calls[..n]), calls[n];
      RunWithinCaps(c, start, calls[..n]);
      StepUnique(c, s, call);
      AcceptedAnyLast(c, start, calls);
      if Accepted(call, AnswerTo(c, start, calls[..n], call)) {
        WriteMeetsCaps(c, s, call);
      } else if Run(c, start, calls).writesEnabled && WithinCaps(s.table, c.limits) {
        if call.Write? { RefusedWriteKeeps(c, s, call); } else { StepKeepsCaps(c, s, call); }
      }
    }
  }

  /** A failing backend disables the store for good: no call changes the flags back, and a disabled
      store answers every read with a miss and every write with a refusal, leaving the table alone. */
  lemma DisabledIsAbsorbing(c: Config, s: State, call: Call)
    ensures Step(c, s, call).0.readsEnabled ==> s.readsEnabled
    ensures Step(c, s, call).0.writesEnabled ==> s.writesEnabled
    ensures !s.readsEnabled && call.Read? ==> Step(c, s, call) == (s, Miss)
    ensures !s.writesEnabled && call.Write? ==> Step(c, s, call) == (s, Outcome(Disabled))
    ensures call.Write? && Step(c, s, call).1 == Outcome(Error)
            ==> !Step(c, s, call).0.readsEnabled && !Step(c, s, call).0.writesEnabled
  {
  }

  /** Clearing a scope leaves exactly the rows whose scope and path, each followed by U+0000, do not begin with the scope
      and its U+0000: without U+0000 in the scopes, exactly those of other scopes. */
  lemma ClearScopeRemovesExactly(c: Config, s: State, scope: Text, e: Entry<Text, Stored>,
                                 keyScope: Text, path: Text, args: Json.Value)
    requires scope != [] && Json.Valid(args) && e.key == StorageKey(keyScope, path, args)
    ensures var cleared := Step(c, s, Clear(Some(scope), Works)).0.table;
            && (e in cleared <==> e in s.table && !(ScopePrefix(scope) <= keyScope + [NUL] + path + [NUL]))
            && (NUL !in scope && NUL !in keyScope ==> (e in cleared <==> e in s.table && keyScope != scope))
  {
    var call := Clear(Some(scope), Works);
    WithoutMember(s.table, RemovedKeys(call, s.table), e);
    ClearScopeExact(scope, keyScope, path, args);
    assert e in s.table ==> e.key in KeySet(s.table);
    if NUL !in scope && NUL !in keyScope {
      ClearPlainScope(scope, keyScope, path, args);
    }
  }
}
