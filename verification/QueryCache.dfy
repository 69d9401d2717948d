/** `createKvQueryCacheStore` (packages/client/src/kv-stores.ts): a revision-guarded query cache
    over a string table, one store call at a time. */
module QueryCache {
  import opened Numbers
  import opened Texts
  import opened Options
  import opened OrderedMaps
  import opened StableKeys
  import opened QueryEviction
  import Json

  /** What the backend does during one store call: it works, or one of its operations throws.
      `DeleteFails(done)` names the keys it had deleted before it threw, if they were to be deleted. */
  datatype Fault = Works | GetFails | SetFails | ListFails | DeleteFails(done: set<Text>) | CallbackFails

  datatype Call =
    | Read(scope: Text, path: Text, args: Json.Value, ageMs: Option<int>, now: int, fault: Fault)
    | Write(scope: Text, path: Text, args: Json.Value, result: Json.Value, revision: Text, now: int, fault: Fault)
    | Delete(scope: Text, path: Text, args: Json.Value, fault: Fault)
    | Clear(prefixScope: Option<Text>, fault: Fault)

  datatype Lookup = Lookup(result: Json.Value, revision: Text, writtenAt: int, ageMs: int)

  datatype WriteOutcome = Written | Older | Oversize | Disabled | Error

  datatype Response = Miss | Hit(lookup: Lookup) | Outcome(outcome: WriteOutcome) | Done

  datatype Config = Config(maxAgeMs: int, maxEntryBytes: int, limits: Limits, hasOnScope: bool)

  datatype State = State(
    table: Table,
    readsEnabled: bool,
    writesEnabled: bool,
    lastEmittedScope: Option<Text>)

  /** An option of the store: absent, not a finite number, or a number. */
  datatype Setting = Unset | NotFinite | Finite(n: int)

  function Positive(value: Setting, fallback: int): (r: int)
    requires fallback > 0
    ensures r > 0
    ensures if value.Finite? && value.n > 0 then r == value.n else r == fallback
  {
    if value.Finite? && value.n > 0 then value.n else fallback
  }

  predicate ValidConfig(c: Config) {
    && c.maxAgeMs > 0 && c.maxEntryBytes > 0
    && c.limits.maxEntriesPerScope > 0 && c.limits.maxBytesPerScope > 0 && c.limits.maxBytes > 0
  }

  /** A store just opened over what an earlier session left. */
  function Opened(stored: Table): State {
    State(stored, true, true, None)
  }

  // ---------------------------------------------------------------- one call, as a function of the state

  /** What one call does to the table. */
  datatype Change =
    | Keep
    | Drop(keys: set<Text>)
    | Touch(key: Text, record: Record)
    | Store(key: Text, record: Record, dropped: set<Text>)

  /** What one call does: to the table, to the flags, to the scope last reported; and its answer. */
  datatype Effect = Effect(change: Change, fails: bool, emits: bool, response: Response)

  function Apply(t: Table, change: Change): Table {
    match change
    case Keep => t
    case Drop(keys) => Without(t, keys)
    case Touch(key, record) => Put(t, key, Parsed(record))
    case Store(key, record, dropped) => Without(Put(t, key, Parsed(record)), dropped)
  }

  function KeyOf(call: Call): Text
    requires !call.Clear?
  {
    StorageKey(call.scope, call.path, call.args)
  }

  function Found(table: Table, key: Text): Option<Record> {
    var stored: Option<Stored> := Find(table, key);
    match stored
    case Some(Parsed(record)) => Some(record)
    case _ => None
  }

  function ReadEffect(c: Config, s: State, call: Call): Effect
    requires call.Read?
  {
    var key := KeyOf(call);
    if !s.readsEnabled || call.scope == [] then Effect(Keep, false, false, Miss)
    else if call.fault.GetFails? then Effect(Keep, true, false, Miss)
    else
      match Found(s.table, key)
      case None => Effect(Keep, false, false, Miss)
      case Some(record) =>
        var age := match call.ageMs case Some(n) => n case None => c.maxAgeMs;
        if call.now - record.writtenAt > Min(age, c.maxAgeMs) then
          if call.fault.DeleteFails? then Effect(Drop({key} * call.fault.done), true, false, Miss)
          else Effect(Drop({key}), false, false, Miss)
        else if call.fault.SetFails? then Effect(Keep, true, false, Miss)
        else
          Effect(Touch(key, record.(lastAccessedAt := call.now)), false, false,
                 Hit(Lookup(record.result, record.revision, record.writtenAt, call.now - record.writtenAt)))
  }

  function NewRecord(call: Call): Record
    requires call.Write?
  {
    Record(call.scope, call.path, call.result, call.revision, call.now, call.now, Json.JsonSize(call.result))
  }

  /** The keys the eviction pass of a write deletes from the table with the new record. */
  ghost function Dropped(c: Config, table: Table, call: Call): set<Text> {
    if call.fault.ListFails? then {}
    else if call.fault.DeleteFails? then EvictedKeys(table, c.limits) * call.fault.done
    else EvictedKeys(table, c.limits)
  }

  /** Whether a write that got past its eviction pass reports its scope. */
  predicate Emits(c: Config, s: State, call: Call)
    requires call.Write?
  {
    c.hasOnScope && s.lastEmittedScope != Some(call.scope) && !call.fault.ListFails? && !call.fault.DeleteFails?
  }

  /** Whether a write fails after its record is set. */
  predicate FailsLate(c: Config, s: State, call: Call)
    requires call.Write?
  {
    call.fault.ListFails? || call.fault.DeleteFails? || (Emits(c, s, call) && call.fault.CallbackFails?)
  }

  ghost function WriteEffect(c: Config, s: State, call: Call): Effect
    requires call.Write?
  {
    var key := KeyOf(call);
    if !s.writesEnabled || call.scope == [] || call.revision == [] then
      Effect(Keep, false, false, Outcome(Disabled))
    else if Json.JsonSize(call.result) > c.maxEntryBytes then Effect(Keep, false, false, Outcome(Oversize))
    else if call.fault.GetFails? then Effect(Keep, true, false, Outcome(Error))
    else if Found(s.table, key).Some? && LexLeq(call.revision, Found(s.table, key).value.revision) then
      Effect(Keep, false, false, Outcome(Older))
    else if call.fault.SetFails? then Effect(Keep, true, false, Outcome(Error))
    else
      var dropped := Dropped(c, Put(s.table, key, Parsed(NewRecord(call))), call);
      Effect(Store(key, NewRecord(call), dropped), FailsLate(c, s, call), Emits(c, s, call),
             Outcome(if FailsLate(c, s, call) then Error else Written))
  }

  /** The keys a `Delete` or `Clear` removes. */
  ghost predicate Removes(call: Call, key: Text) {
    match call
    case Delete(_, _, _, fault) => key == KeyOf(call) && (fault.DeleteFails? ==> key in fault.done)
    case Clear(scope, fault) =>
      && (scope.None? || scope.value == [] || ScopePrefix(scope.value) <= key)
      && (fault.DeleteFails? ==> key in fault.done)
    case _ => false
  }

  ghost function RemovedKeys(call: Call, table: Table): set<Text> {
    set k | k in KeySet(table) && Removes(call, k)
  }

  ghost function EffectOf(c: Config, s: State, call: Call): Effect {
    match call
    case Read(_, _, _, _, _, _) => ReadEffect(c, s, call)
    case Write(_, _, _, _, _, _, _) => WriteEffect(c, s, call)
    case _ => Effect(Drop(RemovedKeys(call, s.table)), false, false, Done)
  }

  ghost function Step(c: Config, s: State, call: Call): (State, Response) {
    var e := EffectOf(c, s, call);
    (State(Apply(s.table, e.change),
           s.readsEnabled && !e.fails,
           s.writesEnabled && !e.fails,
           if e.emits && call.Write? then Some(call.scope) else s.lastEmittedScope),
     e.response)
  }

  // ---------------------------------------------------------------- the store

  class QueryCacheStore {
    const config: Config
    var table: Table
    var readsEnabled: bool
    var writesEnabled: bool
    var lastEmittedScope: Option<Text>

    ghost function View(): State
      reads this
    {
      State(table, readsEnabled, writesEnabled, lastEmittedScope)
    }

    ghost predicate Valid()
      reads this
    {
      UniqueKeys(table) && ValidConfig(config)
    }

    constructor (stored: Table, maxAgeMs: Setting, maxEntryBytes: Setting, maxEntriesPerScope: Setting,
                 maxBytesPerScope: Setting, maxBytes: Setting, hasOnScope: bool)
      requires UniqueKeys(stored)
      ensures Valid() && View() == Opened(stored)
      ensures config.hasOnScope == hasOnScope
    {
      config := Config(
        Positive(maxAgeMs, 24 * 60 * 60 * 1000),
        Positive(maxEntryBytes, 2 * 1024 * 1024),
        Limits(Positive(maxEntriesPerScope, 100),
               Positive(maxBytesPerScope, 20 * 1024 * 1024),
               Positive(maxBytes, 50 * 1024 * 1024)),
        hasOnScope);
      table, readsEnabled, writesEnabled, lastEmittedScope := stored, true, true, None;
    }

    method Disable()
      modifies this`readsEnabled, this`writesEnabled
      ensures !readsEnabled && !writesEnabled
    {
      readsEnabled, writesEnabled := false, false;
    }

    method DoRead(call: Call) returns (response: Response)
      requires Valid() && call.Read?
      modifies this
      ensures Valid()
      ensures (View(), response) == Step(config, old(View()), call)
    {
      if !readsEnabled || call.scope == [] {
        return Miss;
      }
      var key := StorageKey(call.scope, call.path, call.args);
      if call.fault.GetFails? {
        Disable();
        return Miss;
      }
      var record: Record;
      var stored: Option<Stored> := Find(table, key);
      match stored {
        case Some(Parsed(r)) => record := r;
        case _ => return Miss;
      }
      var age := match call.ageMs case Some(n) => n case None => config.maxAgeMs;
      if call.now - record.writtenAt > Min(age, config.maxAgeMs) {
        if call.fault.DeleteFails? {
          WithoutUnique(table, {key} * call.fault.done);
          table := Without(table, {key} * call.fault.done);
          Disable();
          return Miss;
        }
        WithoutUnique(table, {key});
        table := Without(table, {key});
        return Miss;
      }
      if call.fault.SetFails? {
        Disable();
        return Miss;
      }
      PutUnique(table, key, Parsed(record.(lastAccessedAt := call.now)));
      table := Put(table, key, Parsed(record.(lastAccessedAt := call.now)));
      return Hit(Lookup(record.result, record.revision, record.writtenAt, call.now - record.writtenAt));
    }

    method DoWrite(call: Call) returns (response: Response)
      requires Valid() && call.Write?
      modifies this
      ensures Valid()
      ensures (View(), response) == Step(config, old(View()), call)
    {
      if !writesEnabled || call.scope == [] || call.revision == [] {
        return Outcome(Disabled);
      }
      var sizeBytes := Json.JsonSize(call.result);
      if sizeBytes > config.maxEntryBytes {
        return Outcome(Oversize);
      }
      var key := StorageKey(call.scope, call.path, call.args);
      if call.fault.GetFails? {
        Disable();
        return Outcome(Error);
      }
      var stored: Option<Stored> := Find(table, key);
      match stored {
        case Some(Parsed(existing)) =>
          if LexLeq(call.revision, existing.revision) {
            return Outcome(Older);
          }
        case _ =>
      }
      if call.fault.SetFails? {
        Disable();
        return Outcome(Error);
      }
      var record := Record(call.scope, call.path, call.result, call.revision, call.now, call.now, sizeBytes);
      PutUnique(table, key, Parsed(record));
      table := Put(table, key, Parsed(record));
      response := EvictAndNotify(call);
    }

    method EvictAndNotify(call: Call) returns (response: Response)
      requires Valid() && call.Write?
      modifies this
      ensures Valid()
      ensures var fails := FailsLate(config, old(View()), call);
              && table == Without(old(table), Dropped(config, old(table), call))
              && readsEnabled == (old(readsEnabled) && !fails) && writesEnabled == (old(writesEnabled) && !fails)
              && lastEmittedScope
                 == (if Emits(config, old(View()), call) then Some(call.scope) else old(lastEmittedScope))
              && response == Outcome(if fails then Error else Written)
    {
      if call.fault.ListFails? {
        Disable();
        WithoutNone(table, {});
        return Outcome(Error);
      }
      var evict := EvictQueryCache(table, config.limits);
      if call.fault.DeleteFails? {
        WithoutUnique(table, evict * call.fault.done);
        table := Without(table, evict * call.fault.done);
        Disable();
        return Outcome(Error);
      }
      WithoutUnique(table, evict);
      table := Without(table, evict);
      if config.hasOnScope && lastEmittedScope != Some(call.scope) {
        lastEmittedScope := Some(call.scope);
        if call.fault.CallbackFails? {
          Disable();
          return Outcome(Error);
        }
      }
      return Outcome(Written);
    }

    /** `delete` and `clear`; a backend that throws is ignored, with what it has deleted by then. */
    method DoRemove(call: Call)
      requires Valid() && (call.Delete? || call.Clear?)
      modifies this`table
      ensures Valid()
      ensures (View(), Done) == Step(config, old(View()), call)
    {
      ghost var removed := RemovedKeys(call, table);
      var rows, kept := table, [];
      for i := 0 to |rows|
        invariant kept == Without(rows[..i], removed)
      {
        var remove := match call
          case Delete(scope, path, args, _) => rows[i].key == StorageKey(scope, path, args)
          case Clear(scope, _) => scope.None? || scope.value == [] || ScopePrefix(scope.value) <= rows[i].key
          case _ => false;
        if call.fault.DeleteFails? && rows[i].key !in call.fault.done {
          remove := false;
        }
        assert rows[i].key in KeySet(rows);
        assert rows[..i + 1] == rows[..i] + [rows[i]];
        WithoutAppend(rows[..i], rows[i], removed);
        if !remove {
          kept := kept + [rows[i]];
        }
      }
      assert rows[..|rows|] == rows;
      WithoutUnique(rows, removed);
      table := kept;
    }
  }

  lemma {:induction false} WithoutAppend(m: Table, e: Entry<Text, Stored>, ks: set<Text>)
    ensures Without(m + [e], ks) == Without(m, ks) + if e.key in ks then [] else [e]
  {
    if m == [] {
      assert m + [e] == [e];
      assert [e][1..] == [];
    } else {
      WithoutAppend(m[1..], e, ks);
      assert (m + [e])[1..] == m[1..] + [e];
    }
  }
}
