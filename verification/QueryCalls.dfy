/** What each call of the query cache store does (packages/client/src/kv-stores.ts), told by what is found in its table
    before and after. */
module QueryCalls {
  import opened Texts
  import opened Options
  import opened OrderedMaps
  import opened StableKeys
  import opened QueryEviction
  import opened QueryCache
  import opened QueryRuns
  import Json

  /** The same keys in the same order. */
  ghost predicate SameKeys(a: Table, b: Table) {
    |a| == |b| && forall i :: 0 <= i < |a| ==> a[i].key == b[i].key
  }

  lemma {:induction false} PutSameKeys(t: Table, key: Text, stored: Stored)
    requires UniqueKeys(t) && key in KeySet(t)
    ensures SameKeys(Put(t, key, stored), t)
  {
    var p := PutPlace(t, key, stored);
  }

  // ---------------------------------------------------------------- reads

  lemma HitIsTouch(c: Config, s: State, read: Call)
    requires read.Read? && Step(c, s, read).1.Hit?
    ensures var own := StorageKey(read.scope, read.path, read.args);
            && Find(s.table, own).Some? && Find(s.table, own).value.Parsed?
            && var was := Find(s.table, own).value.record;
               Step(c, s, read)
               == (s.(table := Put(s.table, own, Parsed(was.(lastAccessedAt := read.now)))),
                   Hit(Lookup(was.result, was.revision, was.writtenAt, read.now - was.writtenAt)))
  {
  }

  /** A hit sets the access time of the record it returns and changes nothing else. */
  lemma HitTouches(c: Config, s: State, read: Call, key: Text)
    requires UniqueKeys(s.table) && read.Read? && Step(c, s, read).1.Hit?
    ensures var next := Step(c, s, read).0; var own := StorageKey(read.scope, read.path, read.args);
            && Find(s.table, own).Some? && Find(s.table, own).value.Parsed?
            && var was := Find(s.table, own).value.record;
               && Step(c, s, read).1.lookup
                  == Lookup(was.result, was.revision, was.writtenAt, read.now - was.writtenAt)
               && Find(next.table, own) == Some(Parsed(was.(lastAccessedAt := read.now)))
               && (key != own ==> Find(next.table, key) == Find(s.table, key))
               && SameKeys(next.table, s.table)
               && next == s.(table := next.table)
  {
    HitIsTouch(c, s, read);
    var own := StorageKey(read.scope, read.path, read.args);
    var touched := Parsed(Find(s.table, own).value.record.(lastAccessedAt := read.now));
    PutFind(s.table, own, touched, key);
    PutFind(s.table, own, touched, own);
    PutSameKeys(s.table, own, touched);
  }

  /** The record is no older than the store and the read allow. */
  predicate YoungEnough(c: Config, read: Call, record: Record)
    requires read.Read?
  {
    && read.now - record.writtenAt <= c.maxAgeMs
    && (read.ageMs.Some? ==> read.now - record.writtenAt <= read.ageMs.value)
  }

  lemma MissKeeps(c: Config, s: State, read: Call)
    requires read.Read? && read.fault.Works? && s.readsEnabled && read.scope != []
    requires var found := Find(s.table, StorageKey(read.scope, read.path, read.args));
             found.None? || found.value.Corrupt?
    ensures Step(c, s, read) == (s, Miss)
  {
  }

  lemma OldIsDropped(c: Config, s: State, read: Call)
    requires read.Read? && read.fault.Works? && s.readsEnabled && read.scope != []
    requires var found := Find(s.table, StorageKey(read.scope, read.path, read.args));
             found.Some? && found.value.Parsed? && !YoungEnough(c, read, found.value.record)
    ensures Step(c, s, read)
         == (s.(table := Without(s.table, {StorageKey(read.scope, read.path, read.args)})), Miss)
  {
  }

  lemma YoungIsHit(c: Config, s: State, read: Call)
    requires read.Read? && read.fault.Works? && s.readsEnabled && read.scope != []
    requires var found := Find(s.table, StorageKey(read.scope, read.path, read.args));
             found.Some? && found.value.Parsed? && YoungEnough(c, read, found.value.record)
    ensures Step(c, s, read).1.Hit?
  {
  }

  /** With a working backend an enabled store hits exactly when it finds a record that is young enough. A record that is
      too old is removed, and nothing else; any other miss leaves the table as it is. */
  lemma ReadExactly(c: Config, s: State, read: Call, key: Text)
    requires UniqueKeys(s.table) && read.Read? && read.fault.Works? && s.readsEnabled && read.scope != []
    ensures var next, answer := Step(c, s, read).0, Step(c, s, read).1;
            var own := StorageKey(read.scope, read.path, read.args);
            var found := Find(s.table, own);
            var parsed := found.Some? && found.value.Parsed?;
            && (answer.Hit? <==> parsed && YoungEnough(c, read, found.value.record))
            && (!answer.Hit? ==> answer == Miss && next == s.(table := next.table))
            && (!parsed ==> next == s)
            && (parsed && !YoungEnough(c, read, found.value.record) ==>
                  Find(next.table, key) == if key == own then None else Find(s.table, key))
  {
    var own := StorageKey(read.scope, read.path, read.args);
    var found := Find(s.table, own);
    if found.None? || found.value.Corrupt? {
      MissKeeps(c, s, read);
    } else if YoungEnough(c, read, found.value.record) {
      YoungIsHit(c, s, read);
    } else {
      OldIsDropped(c, s, read);
      WithoutFind(s.table, {own}, key);
    }
  }

  /** A read that finds its backend failing misses, and disables the store without touching the table, unless that was
      to lose an old record. */
  lemma FailingRead(c: Config, s: State, read: Call)
    requires UniqueKeys(s.table) && read.Read? && s.readsEnabled && read.scope != []
    ensures read.fault.GetFails? ==> Step(c, s, read) == (s.(readsEnabled := false, writesEnabled := false), Miss)
    ensures var found := Find(s.table, StorageKey(read.scope, read.path, read.args));
            read.fault.SetFails? && found.Some? && found.value.Parsed? && YoungEnough(c, read, found.value.record)
            ==> Step(c, s, read) == (s.(readsEnabled := false, writesEnabled := false), Miss)
  {
  }

  // ---------------------------------------------------------------- writes

  /** What a write stores. */
  function Stores(write: Call): Stored
    requires write.Write?
  {
    Parsed(Record(write.scope, write.path, write.result, write.revision, write.now, write.now,
                  Json.JsonSize(write.result)))
  }

  /** The stored revision is not before that of the write. */
  predicate NotNewer(s: State, write: Call)
    requires write.Write?
  {
    var found := Find(s.table, StorageKey(write.scope, write.path, write.args));
    found.Some? && found.value.Parsed? && LexLeq(write.revision, found.value.record.revision)
  }

  /** With a working backend a write is accepted exactly when the store is enabled, scope and revision are given, the
      result is within the entry cap and the revision is newer than the stored one; otherwise the answer names the
      first of these that fails, and nothing changes. */
  lemma WriteExactly(c: Config, s: State, write: Call)
    requires UniqueKeys(s.table) && write.Write? && write.fault.Works?
    ensures var next, answer := Step(c, s, write).0, Step(c, s, write).1;
            && (answer == Outcome(Disabled) <==> !s.writesEnabled || write.scope == [] || write.revision == [])
            && (answer == Outcome(Oversize)
                <==> s.writesEnabled && write.scope != [] && write.revision != []
                     && Json.JsonSize(write.result) > c.maxEntryBytes)
            && (answer == Outcome(Older)
                <==> s.writesEnabled && write.scope != [] && write.revision != []
                     && Json.JsonSize(write.result) <= c.maxEntryBytes && NotNewer(s, write))
            && (answer == Outcome(Written)
                <==> s.writesEnabled && write.scope != [] && write.revision != []
                     && Json.JsonSize(write.result) <= c.maxEntryBytes && !NotNewer(s, write))
            && (answer != Outcome(Written) ==> next == s)
  {
  }

  /** An accepted write leaves under its key what it stores or nothing, and under any other key what was there or
      nothing; it reports its scope when that is not the scope last reported. */
  lemma AcceptedWriteStores(c: Config, s: State, write: Call, key: Text)
    requires UniqueKeys(s.table) && write.Write? && Step(c, s, write).1 == Outcome(Written)
    ensures var next := Step(c, s, write).0; var found := Find(next.table, key);
            && (found.Some? ==>
                  if key == StorageKey(write.scope, write.path, write.args) then found == Some(Stores(write))
                  else found == Find(s.table, key))
            && next.readsEnabled == s.readsEnabled && next.writesEnabled == s.writesEnabled
            && next.lastEmittedScope == (if c.hasOnScope then Some(write.scope) else s.lastEmittedScope)
  {
    ApplyFind(s.table, EffectOf(c, s, write).change, key);
  }

  /** A write whose backend fails before the record is set leaves the table alone; one whose eviction fails has set
      the record. Either way the store is disabled. */
  lemma FailingWrite(c: Config, s: State, write: Call)
    requires UniqueKeys(s.table) && write.Write? && s.writesEnabled && write.scope != [] && write.revision != []
    requires Json.JsonSize(write.result) <= c.maxEntryBytes
    ensures write.fault.GetFails? || (write.fault.SetFails? && !NotNewer(s, write)) ==>
              Step(c, s, write) == (s.(readsEnabled := false, writesEnabled := false), Outcome(Error))
    ensures write.fault.ListFails? && !NotNewer(s, write) ==>
              var next := Step(c, s, write).0;
              && Step(c, s, write).1 == Outcome(Error) && !next.readsEnabled && !next.writesEnabled
              && Find(next.table, StorageKey(write.scope, write.path, write.args)) == Some(Stores(write))
  {
    ApplyFind(s.table, EffectOf(c, s, write).change, StorageKey(write.scope, write.path, write.args));
  }

  /** The scope is reported when it is not the one last reported, and only then can reporting fail: the write then
      counts as failed, although its record is stored and its scope will not be reported again. */
  lemma FailingReport(c: Config, s: State, write: Call, works: Call)
    requires UniqueKeys(s.table) && write.Write? && write.fault.CallbackFails?
    requires works == Write(write.scope, write.path, write.args, write.result, write.revision, write.now, Works)
    ensures var plain := Step(c, s, works);
            if plain.1 == Outcome(Written) && c.hasOnScope && s.lastEmittedScope != Some(write.scope)
            then Step(c, s, write) == (plain.0.(readsEnabled := false, writesEnabled := false), Outcome(Error))
            else Step(c, s, write) == plain
  {
    SameStored(write, works);
    assert EffectOf(c, s, write).change == EffectOf(c, s, works).change;
  }

  lemma SameStored(write: Call, works: Call)
    requires write.Write?
    requires works == Write(write.scope, write.path, write.args, write.result, write.revision, write.now, Works)
    ensures KeyOf(works) == KeyOf(write) && NewRecord(works) == NewRecord(write)
  {
  }

  // ---------------------------------------------------------------- removals

  /** A delete removes its key and no other; with a backend that throws, possibly nothing. */
  lemma DeleteExactly(c: Config, s: State, delete: Call, key: Text)
    requires UniqueKeys(s.table) && delete.Delete?
    ensures var next := Step(c, s, delete).0; var own := StorageKey(delete.scope, delete.path, delete.args);
            && (key != own ==> Find(next.table, key) == Find(s.table, key))
            && (!delete.fault.DeleteFails? ==> Find(next.table, own) == None)
            && (delete.fault.DeleteFails? ==>
                  Find(next.table, own) == None || Find(next.table, own) == Find(s.table, own))
            && next == s.(table := next.table)
  {
    ApplyFind(s.table, EffectOf(c, s, delete).change, key);
    ApplyFind(s.table, EffectOf(c, s, delete).change, StorageKey(delete.scope, delete.path, delete.args));
  }

  /** Clearing without a scope leaves nothing. */
  lemma ClearAll(c: Config, s: State, clear: Call, key: Text)
    requires UniqueKeys(s.table) && clear.Clear? && (clear.prefixScope.None? || clear.prefixScope.value == [])
    requires !clear.fault.DeleteFails?
    ensures Find(Step(c, s, clear).0.table, key) == None
  {
    ApplyFind(s.table, EffectOf(c, s, clear).change, key);
  }

  // ---------------------------------------------------------------- a read protects what it returns

  /** What the next accepted write evicts: of two records of a scope the one just read outlives the one that was last
      accessed before, unless it is larger. */
  lemma ReadOutlives(c: Config, s: State, read: Call, write: Call, other: Text)
    requires UniqueKeys(s.table) && read.Read? && Step(c, s, read).1.Hit?
    requires write.Write? && Step(c, Step(c, s, read).0, write).1 == Outcome(Written)
    requires var own, written := StorageKey(read.scope, read.path, read.args),
                                 StorageKey(write.scope, write.path, write.args);
             && own != written && other != written && Find(s.table, own).Some? && Find(s.table, own).value.Parsed?
             && Find(s.table, other).Some? && Find(s.table, other).value.Parsed?
             && var mine, theirs := Find(s.table, own).value.record, Find(s.table, other).value.record;
                && mine.scope == theirs.scope && mine.sizeBytes <= theirs.sizeBytes && theirs.lastAccessedAt < read.now
    requires Find(Step(c, Step(c, s, read).0, write).0.table, other).Some?
    ensures Find(Step(c, Step(c, s, read).0, write).0.table, StorageKey(read.scope, read.path, read.args)).Some?
  {
    var own, written := StorageKey(read.scope, read.path, read.args), StorageKey(write.scope, write.path, write.args);
    var s1 := Step(c, s, read).0;
    HitTouches(c, s, read, other);
    StepUnique(c, s, read);
    if own != other {
      WrittenTable(c, s1, write);
      var t := Put(s1.table, written, Stores(write));
      OutlivesAfterPut(s1.table, written, Stores(write), c.limits, other, own);
    }
  }

  lemma OutlivesAfterPut(table: Table, written: Text, stored: Stored, limits: Limits, other: Text, own: Text)
    requires UniqueKeys(table) && own != written && other != written
    requires Find(table, own).Some? && Find(table, own).value.Parsed?
    requires Find(table, other).Some? && Find(table, other).value.Parsed?
    requires var mine, theirs := Find(table, own).value.record, Find(table, other).value.record;
             && mine.scope == theirs.scope && mine.sizeBytes <= theirs.sizeBytes
             && theirs.lastAccessedAt < mine.lastAccessedAt
    requires Find(AfterEviction(Put(table, written, stored), limits), other).Some?
    ensures Find(AfterEviction(Put(table, written, stored), limits), own).Some?
  {
    var t := Put(table, written, stored);
    var mine, theirs := Find(table, own).value.record, Find(table, other).value.record;
    PutUnique(table, written, stored);
    PutFind(table, written, stored, own);
    PutFind(table, written, stored, other);
    FindMember(t, Entry(own, Parsed(mine)));
    WithoutFind(t, EvictedKeys(t, limits), other);
    WithoutUnique(t, EvictedKeys(t, limits));
    FindMember(AfterEviction(t, limits), Entry(other, Parsed(theirs)));
    AccessedLaterOutlives(t, limits, Row(other, theirs), Row(own, mine));
  }
}
