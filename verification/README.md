# Gonvex, verified

A Dafny model of the parts of Gonvex whose behaviour is hard to see from reading one function, with proofs of what
they promise. `dafny verify dfyconfig.toml` checks everything.

**The client's key-value cache** (`Json`, `JsonReading`, `JsonBytes`, `StableKeys`, `StableReading`, `OrderedMaps`,
`QueryEviction`, `QueryCache`, `QueryCalls`, `QueryRuns`, `Deltas`, `SyncStore`). Query results and synced collections
live in a table of strings. Keys are printed from scope, path and canonical arguments; printing is proved injective up
to object key order and to be undone by a reader of RFC 8259, so the table behaves like a map of queries. The stores
are classes over such a table, opened on whatever an earlier session left there, one call at a time, with the backend
free to fail at every one of its operations. Over any run of calls a hit is the last accepted write, or the record the
run started with, and never too old; revisions only grow; the caps hold from the first accepted write on. What was
just written survives its own eviction pass exactly when it fits on its own, as long as it counts as accessed last. Of
two records of a scope the one just read outlives the other, unless it is larger. Deltas compose, whatever rows are
stored, and which rows a delta leaves is told by their key fields alone.

**Cache ownership** (`Coordinator`, `CoordinatorCalls`, `BrowserCache`, `BootRuns`, `SharedWorker`,
`SharedWorkerAnswers`). One tab owns the cache. The coordinator is a class whose methods are proved against a step
function; its invariants hold over all runs, the owner moves only when a call takes its registration or lock away, and
between such calls all requests go to one tab. A boot of the owner's worker is two steps with other calls between
them. The shared worker is a state machine over messages, with execution and reset as separate steps: one response for
each request, which the run explains, and a failure latch.

**Load measurement** (`Percentiles`, `Histogram`, `TtluReport`, `Propagation`). The sharded aggregator is proved to
keep, for every history, the largest delay expected at any report, which is the largest delay per commit and client
exactly when no earlier report saw a larger one; the bucketed percentile is proved to be the rounding of the exact
one, and that to be the one counting determines.

**Load scheduling** (`LoadRunner`, `LoadTiming`). Connections are dealt round-robin, the rates of all connections add
up to the requested rate in exact arithmetic, and a writer keeps to its rate however late its timers fire, and to its
schedule when it is in time.

**The bundle loader** (`BundleLoader`, `LoaderInvariant`, `LoaderRuns`, `LoaderFlights`, `LoaderFastPath`). Concurrent
loads as interleaved steps over locks and a single-flight table: each identity is compiled at most once, its App is
shared and never changes, every call returns, and a load returns what the leader of the flight it joined returns.
Whose App the fast path returns is stated over all runs.

**Dependency options** (`DependencyOptions`, `DependencyAgreement`). The static reader of option expressions against
running the builders, for every list of options with literal arguments, however spelled: when exactly both mean the
same.

**Window trim and S3 text** (`WindowTrim`, `S3Encoding`). Which rows the two-ended trim keeps, and round trips for
percent-encoding, paths and canonical query strings.

`Texts`, `Sorting`, `Numbers` and `Options` hold what the other modules share.

## Where the code differs from what one would expect

- A tab whose id is the empty string can be elected and become ready, but requests are not routed to it
  (`Coordinator.EmptyIdIsNeverRouted`); every other statement about routes and owners takes this into account.
- Any tab's `owner.ready` message marks the active tab ready (`SharedWorker.ReadyIsCreditedToTheActiveTab` says
  exactly when requests then go to the sender, `SharedWorker.NotTheOwnerReportsReady` is a run in which they do not).
- A request whose reset rejects gets no response at all (`SharedWorker.LostRequestHasNoResponse`); the exact count is
  in `SharedWorker.RunResponds`.
- Booting the owner awaits between reading the owner and marking it ready; when the owner changes meanwhile, the new
  one is marked although its worker was not booted (`BootRuns.BootMarksExactly`, `BootRuns.UnbootedOwnerIsMarked`).
- Scopes with U+0000 let two queries share a key (`StableKeys.StorageKeyCollides`), and clearing a scope then also
  removes scopes that extend it (`StableKeys.ClearScopeExact`).
- With equal access times, which a clock of milliseconds produces, the place in the table decides what is evicted, so
  a key written again can be lost by its own pass (`QueryRuns.RewriteIsLost`; `QueryRuns.WriteSurvivesExactly` and
  `QueryEviction.RowSurvivesExactly` say when a row stays).
- The loader's fast path compares project and hash but not the module path: a load gets the App of its own identity
  exactly when the last load that stored one for the project had the same module path
  (`LoaderFastPath.FastLoadIsOwnExactly`, `LoaderFastPath.FastPathIgnoresModulePath`).
- The static option reader passes over blank names that the builders store, and over literals that JSON cannot read
  (`DependencyAgreement.ReadingMeansRunning` says exactly when this shows, `DependencyAgreement.RawTableIsLost` and
  `DependencyAgreement.BlankResolverIsPassedOver` are lists on which it does).
- A writer that has fallen behind does not catch up after a sent mutation, but does after arguments that could not be
  expanded (`LoadRunner.NoBurstAfterSending`, `LoadRunner.ArgsFailedMayBurst`).
- Reports keep the delays of earlier reports: when a commit id is recorded again at a later time after a report, a
  delay can stay larger than the one expected (`Propagation.ReportIsExactlyWhen`,
  `Propagation.LaterCommitKeepsOldDelay`).

## Model

| member | source | states |
|---|---|---|
| Json.Readable | packages/client/src/kv-stores.ts:465-473 | any text begins with at most one printed JSON value: what follows the value is determined too |
| Json.StringifyInjective | packages/client/src/kv-stores.ts:466 | two JSON values that print alike are the same value (escaping as in section 7 of RFC 8259) |
| JsonReading.ParseStringify | packages/client/src/kv-stores.ts:475-482 | the text of every value, read as RFC 8259 says (sections 3 to 7), is that value: what a store sets it gets again |
| JsonBytes.JsonSizeIsUtf8Length | packages/client/src/kv-stores.ts:490-492 | the size of a value is the number of bytes of its text in UTF-8 (section 3 of RFC 3629); printed text holds no lone surrogate |
| StableKeys.StableIsCanonical | packages/client/src/kv-stores.ts:465-473 | the stable text of a value is the plain text of its canonical form |
| StableReading.StableReads | packages/client/src/kv-stores.ts:465-473 | read as RFC 8259 says, the stable text of a value is that value up to key order, with the keys of every object ascending by code unit |
| StableKeys.StableStringifyCanonical | packages/client/src/kv-stores.ts:465-473 | two values print alike exactly when they are equal up to object key order |
| StableKeys.StorageKeyCollision | packages/client/src/kv-stores.ts:461-463 | for any scopes and paths: keys are equal exactly when scope and path, joined by U+0000, are equal and the arguments are equal up to key order, top-level null counting as {} |
| StableKeys.StorageKeyInjective | packages/client/src/kv-stores.ts:461-463 | for scopes without U+0000, whatever the paths, keys collide only for the same scope, path and arguments |
| StableKeys.StorageKeyCollides | packages/client/src/kv-stores.ts:461-463 | without that restriction two different queries share a key: a concrete pair |
| StableKeys.ClearScopeExact | packages/client/src/kv-stores.ts:191-197 | for any scopes and paths: the prefix that clear(scope) removes fits a key exactly when scope and U+0000 are a prefix of the scope and path of the key, each followed by U+0000 |
| StableKeys.ClearPlainScope | packages/client/src/kv-stores.ts:191-197 | for a scope without U+0000: exactly when the key has that scope, or a scope that extends it past a U+0000 |
| QueryEviction.SurvivorsWithinScopeCaps | packages/client/src/kv-stores.ts:224-249 | what the per-scope phase keeps of a scope is within its entry and byte caps |
| QueryEviction.SurvivorsByScope | packages/client/src/kv-stores.ts:224-249 | the per-scope phase treats each scope as if it were alone |
| QueryEviction.DropOldestShortestPrefix | packages/client/src/kv-stores.ts:250-255 | the global phase drops a prefix in access order, and any shorter prefix would leave too many bytes |
| QueryEviction.EvictionMeetsCaps | packages/client/src/kv-stores.ts:212-257 | after a pass every scope is within its two caps, the table is within the global cap, and no corrupt row is left |
| QueryEviction.EvictionUnchanged | packages/client/src/kv-stores.ts:212-257 | a table within all caps and without corrupt rows is left as it is |
| QueryEviction.EvictionIdempotent | packages/client/src/kv-stores.ts:212-257 | a second pass changes nothing |
| QueryEviction.TiesKeepTableOrder | packages/client/src/kv-stores.ts:223 | rows accessed at the same time are treated in the order of the table |
| QueryEviction.RowSurvivesExactly | packages/client/src/kv-stores.ts:212-257 | any row survives exactly when it fits its scope beside the newer rows that stay and they and it fit in the table |
| QueryEviction.AccessedLaterOutlives | packages/client/src/kv-stores.ts:212-257 | of two rows of a scope the one accessed later outlives the other, unless it is larger |
| QueryEviction.LatestSurvivesExactly | packages/client/src/kv-stores.ts:212-257 | a row that no row was accessed after, ties counted by place in the table, survives exactly when its size is within the scope and the global byte cap |
| QueryEviction.FirstOfTwoIsLost | packages/client/src/kv-stores.ts:223-249 | of two rows of one scope with equal access times the first one in the table goes when they do not fit together |
| QueryEviction.EvictScope | packages/client/src/kv-stores.ts:232-249 | one scope, newest row first: the loop evicts exactly what the specification does not keep |
| QueryEviction.EvictOverScopeCaps | packages/client/src/kv-stores.ts:224-249 | the per-scope loops evict exactly the complement of the survivors and add up what stays |
| QueryEviction.EvictOverTotal | packages/client/src/kv-stores.ts:250-255 | the global loop evicts exactly the prefix of the survivors that is dropped |
| QueryEviction.EvictQueryCache | packages/client/src/kv-stores.ts:212-257 | the whole pass deletes exactly the keys of corrupt rows and of rows that are not kept |
| QueryCache.Positive | packages/client/src/kv-stores.ts:498-500 | a configured limit is used when it is finite and positive, else the default: the caps are always positive |
| QueryCache.QueryCacheStore.DoRead | packages/client/src/kv-stores.ts:130-153 | new table, flags and answer of a read, with the backend failing at any of its operations |
| QueryCache.QueryCacheStore.DoWrite | packages/client/src/kv-stores.ts:154-183 | new table, flags and outcome of a write, with the backend failing at any point, eviction half done included |
| QueryCache.QueryCacheStore.DoRemove | packages/client/src/kv-stores.ts:184-197 | delete and clear remove the key, or all keys with the prefix; of a failing backend what it had deleted |
| QueryCalls.HitTouches | packages/client/src/kv-stores.ts:130-149 | a hit returns the stored record, sets its access time to now, and changes no other key, no order and no flag |
| QueryCalls.ReadExactly | packages/client/src/kv-stores.ts:130-149 | with a working backend a read hits exactly when the record is there and young enough; one that is too old is removed, and no other key; any other miss changes nothing |
| QueryCalls.FailingRead | packages/client/src/kv-stores.ts:130-153 | a backend that fails at the lookup or the touch makes the read a miss, disables the store and leaves the table |
| QueryCalls.ReadOutlives | packages/client/src/kv-stores.ts:141-142 | of two records of a scope the one just read survives the next accepted write if the one accessed before does, unless it is larger |
| QueryCalls.WriteExactly | packages/client/src/kv-stores.ts:154-160 | a write is accepted exactly when the store is enabled, scope and revision are given, the result fits and its revision is newer than the stored one; else the answer names the first condition that fails, and nothing changes |
| QueryCalls.AcceptedWriteStores | packages/client/src/kv-stores.ts:161-178 | an accepted write leaves its record or nothing under its key, what was there or nothing under any other, and its scope as the one last reported |
| QueryCalls.FailingWrite | packages/client/src/kv-stores.ts:154-183 | a backend that fails before the record is set leaves the table; one that fails in eviction leaves the record; both disable the store |
| QueryCalls.FailingReport | packages/client/src/kv-stores.ts:174-182 | a scope callback that throws makes the write fail exactly when the scope is not the one last reported, and the record stays |
| QueryCalls.DeleteExactly | packages/client/src/kv-stores.ts:184-190 | a delete removes its key and no other |
| QueryCalls.ClearAll | packages/client/src/kv-stores.ts:191-197 | a clear without a scope leaves nothing |
| QueryRuns.ReadReturnsLastAccepted | packages/client/src/kv-stores.ts:130-183 | over any run of calls from any stored table a hit is the last accepted write under its key or, when the run has accepted none, the record found at the start; nothing has written or removed the key since, and it is no older than min(ageMs, maxAgeMs) |
| QueryRuns.ReadReturnsOwnQuery | packages/client/src/kv-stores.ts:130-183 | in terms of queries: that write was for the same scope, path and arguments up to key order |
| QueryRuns.RevisionsIncrease | packages/client/src/kv-stores.ts:154-160 | between removals the accepted revisions of a key strictly increase |
| QueryRuns.WriteSurvivesExactly | packages/client/src/kv-stores.ts:154-183 | what was just written is kept by its own eviction pass exactly when its size is within the scope and global byte caps, provided no row was accessed later and none with the same time stands after it |
| QueryRuns.RewriteIsLost | packages/client/src/kv-stores.ts:154-183 | without that proviso: a key written again in one clock tick, before another of its scope with the same access time, is lost when the two do not fit together, although the write answers written |
| QueryRuns.WriteThenRead | packages/client/src/kv-stores.ts:130-183 | when the entry cap is at most the two byte caps, a read of the same query right after an accepted write returns that write, under the same proviso |
| QueryRuns.RunWithinCaps | packages/client/src/kv-stores.ts:130-257 | while no backend operation has failed the table is within all three caps from the first accepted write on, and from the start if it was then |
| QueryRuns.DisabledIsAbsorbing | packages/client/src/kv-stores.ts:123-127 | a failing backend disables the store for good; a disabled store answers misses and refusals and leaves the table alone |
| QueryRuns.ClearScopeRemovesExactly | packages/client/src/kv-stores.ts:191-197 | clearing a scope leaves exactly the rows whose scope and path do not begin with it and U+0000; for scopes without U+0000 exactly those of other scopes |
| Deltas.DeltaResult | packages/client/src/kv-stores.ts:342-370 | applyDelta yields, for each key in order of first occurrence among kept rows and identified upserts, the last row with that key; keys are distinct |
| Deltas.KeyedRowsExactly | packages/client/src/kv-stores.ts:342-354 | told by key fields alone: a row whose key field is the string or number k is in the result exactly when it is the last such upsert or, with no such upsert and k not deleted, the last such stored row |
| Deltas.KeylessRowsExactly | packages/client/src/kv-stores.ts:342-354 | a row without a key is in the result exactly when it is the last such stored row and the empty text is not deleted: upserts without a key are passed over |
| Deltas.KeptRowsStay | packages/client/src/kv-stores.ts:342-370 | with distinct stored keys the kept rows stay in place and new keys are appended |
| Deltas.DeltasCompose | packages/client/src/kv-stores.ts:342-370 | delta 1 then delta 2 gives the same list as the combined delta, whatever rows are stored |
| SyncStore.ShortestPrefix | packages/client/src/kv-stores.ts:409-423 | eviction drops the shortest least-recently-used part that brings the rest within maxBytes |
| SyncStore.LatestSurvivesExactly | packages/client/src/kv-stores.ts:409-423 | the collection that counts as accessed last, ties by place in the table, survives exactly when its size is at most maxBytes |
| SyncStore.EvictSyncCollections | packages/client/src/kv-stores.ts:409-423 | the listing, the sort and the loop delete exactly the corrupt rows and the dropped prefix |
| SyncStore.KvSyncStore.Persist | packages/client/src/kv-stores.ts:285-296 | new table and flag of a persist, with the backend failing at its set or part-way through eviction |
| SyncStore.KvSyncStore.Load | packages/client/src/kv-stores.ts:297-311 | a load touches the record and returns its collection; a failing backend disables the store |
| SyncStore.KvSyncStore.Replace | packages/client/src/kv-stores.ts:312-341 | a full write; with rowsUnchanged an existing record keeps its rows |
| SyncStore.KvSyncStore.ApplyDelta | packages/client/src/kv-stores.ts:342-371 | the stored collection becomes the delta applied to the stored rows |
| SyncStore.PersistedSurvivesExactly | packages/client/src/kv-stores.ts:285-294 | a persisted collection that counts as accessed last is found again exactly when its size is at most maxBytes |
| SyncStore.StoredDeltasCompose | packages/client/src/kv-stores.ts:342-370 | the collection two deltas in a row make is that of their combination |
| SyncStore.StoredDeltaRows | packages/client/src/kv-stores.ts:342-371 | what a delta call leaves under its key when it fits: those rows, the cursor given, the key field given, else stored, else _id |
| SyncStore.SettingsOverlaid | packages/client/src/kv-stores.ts:355-370 | a setting the delta names is taken, one it does not name stays as stored |
| SyncStore.TwoDeltaCalls | packages/client/src/kv-stores.ts:285-370 | through two calls with their eviction passes: when the first collection fits, the second call leaves that of the combined delta, exactly when that fits |
| Coordinator.CacheCoordinator.ElectIfNeeded | packages/client/src/cache-coordinator.ts:106-127 | the fields after an election are the election function of the fields before |
| Coordinator.CacheCoordinator.DoRegisterTab | packages/client/src/cache-coordinator.ts:26-29 | registering replaces or appends the normalised tab and elects |
| Coordinator.CacheCoordinator.DoUpdateTab | packages/client/src/cache-coordinator.ts:31-42 | an update patches a known tab, a field named as undefined becoming false, unseats an owner that may no longer own, and elects |
| Coordinator.CacheCoordinator.DoCloseTab | packages/client/src/cache-coordinator.ts:44-51 | closing removes the tab, unseats it when it was the owner, and elects |
| Coordinator.CacheCoordinator.RouteRequest | packages/client/src/cache-coordinator.ts:84-96 | the route is the route function of the fields |
| Coordinator.NextOwnerIsLeast | packages/client/src/cache-coordinator.ts:106-127 | election picks a least lock holder in id order and fails only when no tab holds a lock |
| Coordinator.StepRests | packages/client/src/cache-coordinator.ts:26-82 | one call from a state at rest ends at rest; the owner leaves a tab exactly when the call removes its registration or lock or disables; a new owner is a least lock holder |
| Coordinator.RunRests | packages/client/src/cache-coordinator.ts:26-136 | after every call of every run: unless disabled an owner exists exactly when some tab holds a lock, it is registered and holds its lock, status is the function of tabs and owner, owner_lost is never left |
| Coordinator.DisabledForGood | packages/client/src/cache-coordinator.ts:53-56 | disabled has no owner and is absorbing, for any later calls |
| Coordinator.RouteExactly | packages/client/src/cache-coordinator.ts:84-96 | active-worker exactly when status is active_owner_ready and the owner id is not empty; it names the owner, a ready lock holder |
| CoordinatorCalls.RouteMeaning | packages/client/src/cache-coordinator.ts:84-96 | flag by flag: requests go to a tab exactly when it is the owner, its id is not empty and it has its lock, a ready worker, ready storage and verified integrity; each refusal has its exact condition |
| CoordinatorCalls.StatusMeaning | packages/client/src/cache-coordinator.ts:106-136 | the status tells the owner and its flags |
| CoordinatorCalls.RegisteredTab | packages/client/src/cache-coordinator.ts:26-29 | registering files a tab with its flags, those left out false, and touches no other |
| CoordinatorCalls.UpdatedTab | packages/client/src/cache-coordinator.ts:31-42 | an update sets each flag it names, undefined counting as false, keeps the others and touches no other tab |
| CoordinatorCalls.ClosedTab | packages/client/src/cache-coordinator.ts:44-51 | closing removes the tab and no other |
| CoordinatorCalls.IntegrityMarked | packages/client/src/cache-coordinator.ts:58-63 | verifying integrity sets that flag of the owner and nothing else |
| CoordinatorCalls.StorageMarked | packages/client/src/cache-coordinator.ts:65-70 | marking storage ready sets that flag of the owner and nothing else |
| CoordinatorCalls.ReadyMarked | packages/client/src/cache-coordinator.ts:72-82 | marking the owner ready sets its three flags and nothing else |
| CoordinatorCalls.NobodyMarked | packages/client/src/cache-coordinator.ts:58-82 | without an owner the marking calls do nothing |
| Coordinator.EmptyIdIsNeverRouted | packages/client/src/cache-coordinator.ts:84-96 | with an empty tab id the status is ready and yet nothing is routed: a concrete run |
| Coordinator.OwnerStays | packages/client/src/cache-coordinator.ts:26-127 | the owner stays through any calls none of which unseats it |
| Coordinator.RoutesAgree | packages/client/src/cache-coordinator.ts:84-96 | between calls that unseat the owner all active-worker routes name one tab |
| Coordinator.MarksActive | packages/client/src/cache-coordinator.ts:72-82 | marking the active owner ready makes it, and no other tab, the target of requests |
| BrowserCache.Harness.RegisterTab | packages/client/src/browser-cache.ts:42-45 | a tab gets a fresh worker and is registered |
| BrowserCache.Harness.BeginBoot | packages/client/src/browser-cache.ts:47-56 | up to its await a boot opens the worker of the active tab, if there is one, and changes no other |
| BrowserCache.Harness.FinishBoot | packages/client/src/browser-cache.ts:57 | after it, the boot marks whichever tab is the active one by then |
| BrowserCache.Harness.BootActiveOwner | packages/client/src/browser-cache.ts:47-58 | with nothing in between, a boot is the two steps one after the other |
| BrowserCache.Harness.Request | packages/client/src/browser-cache.ts:64-83 | a request changes the worker of the routed tab at most, answers with its result or a fallback, logs once; active-worker-missing is unreachable when every tab came through the harness |
| BootRuns.BootMarksTheOwner | packages/client/src/browser-cache.ts:47-58 | in every run the end of a boot makes the owner of that moment the target of requests, and changes nothing when there is none |
| BootRuns.BootMarksExactly | packages/client/src/browser-cache.ts:47-58 | that tab is the one whose worker the boot opened exactly when it is still the owner, and it is, with that worker, as long as nothing has unseated it or registered it again |
| BootRuns.UnbootedOwnerIsMarked | packages/client/src/browser-cache.ts:47-58 | a run in which requests go to a tab whose worker was never opened |
| SharedWorker.SharedWorkerCacheCoordinator.Handle | packages/client/src/browser-cache-shared-worker.ts:58-94 | ports, health, coordinator and replies after one message |
| SharedWorker.SharedWorkerCacheCoordinator.HandleRequest | packages/client/src/browser-cache-shared-worker.ts:96-113 | a request is refused with its reason or handed to the executor under the routed owner |
| SharedWorker.SharedWorkerCacheCoordinator.AfterExecute | packages/client/src/browser-cache-shared-worker.ts:121-131 | what a finished or failed execution does to health, replies and requests in flight |
| SharedWorker.RunResponds | packages/client/src/browser-cache-shared-worker.ts:58-132 | in every event sequence each request gets exactly one response, with its own id and port, unless it is in flight or its reset rejected; then it gets none |
| SharedWorker.LostRequestHasNoResponse | packages/client/src/browser-cache-shared-worker.ts:121-131 | a run that leaves a request without a response |
| SharedWorkerAnswers.RunExplained | packages/client/src/browser-cache-shared-worker.ts:96-132 | in every run each response is explained: a refusal by health, route or executor when its request arrived, a value by its execution on behalf of the owner of that moment, an error by its execution and the reset after it |
| SharedWorkerAnswers.OwnerLostCloses | packages/client/src/browser-cache-shared-worker.ts:83-86 | owner.lost closes the tab, takes health away and routes nothing to that tab |
| SharedWorkerAnswers.RegisterAnswers | packages/client/src/browser-cache-shared-worker.ts:66-75 | a tab registers without lock and flags and is told health and tabs |
| SharedWorkerAnswers.FailureMarksCorrupt | packages/client/src/browser-cache-shared-worker.ts:121-131 | a failed execution marks the database corrupt and is answered by its reset, which leaves health alone; other requests are not touched |
| SharedWorkerAnswers.HealthAnswers | packages/client/src/browser-cache-shared-worker.ts:87-89 | a health query is answered on its port under its id and changes nothing else |
| SharedWorker.AdmittedExactly | packages/client/src/browser-cache-shared-worker.ts:96-113 | a request reaches the executor exactly when health is healthy, an executor is set and the coordinator names a registered, lock-holding, ready owner |
| SharedWorker.FailureLatches | packages/client/src/browser-cache-shared-worker.ts:121-131 | after a failed execution none is admitted until an owner reports ready or the host declares the database healthy |
| SharedWorker.ReadyIsCreditedToTheActiveTab | packages/client/src/browser-cache-shared-worker.ts:58-94 | owner.ready makes the database healthy and marks the active tab, if there is one: requests go to the sender exactly when it is that tab |
| SharedWorker.NotTheOwnerReportsReady | packages/client/src/browser-cache-shared-worker.ts:58-94 | a run in which another tab than the owner reports ready and requests go to the owner |
| Percentiles.RankByCounting | cmd/gonvex-load/ttlu.go:242-265 | the t-th smallest value is at most b exactly when at least t values are |
| Percentiles.NearestRankMeaning | cmd/gonvex-load/ttlu.go:242-265 | by counting: the percentile is the value that at least the wanted share of the values reach up to, and less than that share to any smaller number; for no share the least value |
| Percentiles.PercentileUnique | cmd/gonvex-load/ttlu.go:242-265 | counting leaves no choice: there is one such value |
| Percentiles.NearestRankMonotone | cmd/gonvex-load/ttlu.go:242-265 | the exact percentile is monotone in the ratio |
| Percentiles.NearestRankPermuted | cmd/gonvex-load/ttlu.go:242-265 | the exact percentile does not depend on the order of the values |
| Histogram.LatencyHistogram.ObserveN | cmd/gonvex-load/metrics.go:48-70 | the counts, sum and maximum go on describing the observations, negative ones as zero |
| Histogram.LatencyHistogram.Scan | cmd/gonvex-load/metrics.go:99-111 | the scan over the buckets finds the bucket of the value of the wanted rank |
| Histogram.LatencyHistogram.Percentile | cmd/gonvex-load/metrics.go:84-112 | the reported percentile is the bucket rounding of the one that counting the observations determines: the least bound at or above it, or the maximum |
| Histogram.LatencyHistogram.Average | cmd/gonvex-load/metrics.go:114-121 | the average is the truncated quotient of sum and count |
| Histogram.RoundUpMeaning | cmd/gonvex-load/metrics.go:84-112 | bucket rounding is the least bound at or above the value, or the maximum when there is none |
| Histogram.PercentileNeverUnderReports | cmd/gonvex-load/metrics.go:84-112 | the reported percentile is never below the exact one |
| Histogram.PercentileMonotone | cmd/gonvex-load/metrics.go:84-112 | the reported percentile is monotone in the ratio |
| TtluReport.HistogramPermuted | cmd/gonvex-load/ttlu.go:242-265 | the exact histogram report does not depend on the order of the values |
| TtluReport.Summarize | cmd/gonvex-load/ttlu.go:193-239 | the nested loops over the commits build a report of the table |
| TtluReport.ReportUnique | cmd/gonvex-load/ttlu.go:193-239 | a table of commits has exactly one report: no map iteration order shows in it |
| TtluReport.MaximaAreLastUsers | cmd/gonvex-load/ttlu.go:201-232 | the across-commits values are exactly the slowest delays of the delivered commits of this run |
| TtluReport.TallyCounts | cmd/gonvex-load/ttlu.go:193-232 | the sums count: commits of the run, delivered ones, per number the delivered commits with it as slowest delay and the commit and client pairs with it as delay |
| TtluReport.ReportDescribes | cmd/gonvex-load/ttlu.go:193-265 | every histogram of a report, by counting its values: their number, truncated average, the least values that 50, 95 and 99 per cent reach up to, in this order, and the maximum; over all delays, over commits, and for every path |
| Propagation.PropagationAggregator.RecordCommitID | cmd/gonvex-load/ttlu.go:115-128 | the tables go on accounting for the events so far, a commit added: it takes its path and time and keeps its delays; without an id or a time nothing changes |
| Propagation.PropagationAggregator.RecordDeliveryIDs | cmd/gonvex-load/ttlu.go:130-151 | the tables go on accounting for the events so far, a delivery added to the shard of its client |
| Propagation.PropagationAggregator.Report | cmd/gonvex-load/ttlu.go:173-192 | a report folds all shards: for every history the delay of each commit and client is then the kept one |
| Propagation.FoldShard | cmd/gonvex-load/ttlu.go:179-192 | folding a shard takes, commit by commit and client by client, the larger of the known delay and that of the shard |
| Propagation.ExpectedIsLargestDelay | cmd/gonvex-load/ttlu.go:115-192 | the expected delay is the largest non-negative receipt minus commit time over all deliveries naming commit and client, before or after the commit |
| Propagation.DelayMeaning | cmd/gonvex-load/ttlu.go:153-162 | a delay is its milliseconds in whole nanoseconds, the fraction cut off |
| Propagation.KeptIsLargestReported | cmd/gonvex-load/ttlu.go:115-192 | for every history the kept delay is the largest one that was expected at some report |
| Propagation.ReportIsExactlyWhen | cmd/gonvex-load/ttlu.go:115-192 | the delays of a report are the expected ones if and only if no report before it saw a larger one |
| Propagation.EarlierTimesAreExact | cmd/gonvex-load/ttlu.go:115-192 | they are when no commit is recorded again at a later time, with any reports in between |
| Propagation.FirstReportIsExact | cmd/gonvex-load/ttlu.go:115-192 | they are at the first report, whatever was recorded how often |
| Propagation.LaterCommitKeepsOldDelay | cmd/gonvex-load/ttlu.go:115-128 | a commit recorded again at a later time after a report keeps a delay of 9 milliseconds where 5 are expected |
| Propagation.RepeatedReport | cmd/gonvex-load/ttlu.go:173-239 | a repeated report changes neither the commits nor what is reported |
| Propagation.ExpectedPermuted | cmd/gonvex-load/ttlu.go:115-192 | with each id committed once the expected delay depends on which events happened, not on their order |
| Propagation.OrderDoesNotMatter | cmd/gonvex-load/ttlu.go:173-239 | with each id committed once, aggregators that observed the same events in any orders, with any reports between, end with the same commits and the same report |
| LoaderInvariant.StepInv | pkg/projectbundle/bundle.go:101-157 | every step of every call, in any interleaving, keeps the invariant of tables, flights and calls |
| LoaderRuns.CompiledAtMostOnce | pkg/projectbundle/bundle.go:126-147 | under any schedule each plugin identity is compiled successfully at most once |
| LoaderRuns.PublishedForGood | pkg/projectbundle/bundle.go:126-147 | the App published for an identity never changes and is the one compiled for it |
| LoaderRuns.LoadsShareTheApp | pkg/projectbundle/bundle.go:122-157 | all loads past the fast path with one identity that succeed return one App, the one compiled for it |
| LoaderFlights.LoadReturnsItsFlight | pkg/projectbundle/bundle.go:126-157 | over all runs a load that joined a flight returns what the leader of that flight returns: the App the leader compiled if it compiled one, an error exactly when the leader tried to compile and failed |
| LoaderFlights.LoadJoinedAFlight | pkg/projectbundle/bundle.go:101-157 | every load with accepted arguments that the fast path did not answer joined a flight, which had exactly one leader then |
| LoaderFlights.RefusedExactly | pkg/projectbundle/bundle.go:101-111 | a load is refused exactly for its first missing argument: project id, hash, files |
| LoaderRuns.AppsHaveTheirHash | pkg/projectbundle/bundle.go:89-120 | every returned App, and every entry of apps at any moment, was published under the hash of the call or the recorded hash |
| LoaderRuns.NoCallIsStuck | pkg/projectbundle/bundle.go:126-157 | a call that has not returned can step, or waits for a flight whose leader can |
| LoaderRuns.EveryLoadReturns | pkg/projectbundle/bundle.go:101-157 | without new calls a run goes on for a bounded number of steps in whatever order, and where it can go on no longer every call has returned |
| LoaderRuns.SharedKeyCollision | pkg/projectbundle/bundle.go:122-125 | two identities share a key exactly when they are equal or overlap around a U+0000 |
| LoaderRuns.SharedKeyInjective | pkg/projectbundle/bundle.go:122-125 | for hashes without U+0000 the key says module path and hash |
| LoaderRuns.SanitizeRun | pkg/projectbundle/bundle.go:230-236 | a project id keeps its safe characters, and each longest run of others becomes one - |
| LoaderFastPath.FastLoadIsOwnExactly | pkg/projectbundle/bundle.go:112-157 | over all runs a load answered by the fast path got the App compiled for its own identity if and only if the last load that had stored an App for its project had the same module path |
| LoaderFastPath.AppsCameFrom | pkg/projectbundle/bundle.go:149-157 | the App of a project was published under the module path of the last load that stored it and the recorded hash |
| LoaderFastPath.AppForProjectIsLastStored | pkg/projectbundle/bundle.go:89-99 | AppForProject answers with what the last load that stored an App for the project returned |
| LoaderFastPath.FastPathIgnoresModulePath | pkg/projectbundle/bundle.go:112-117 | a run, for all such bundles, in which the second load gets the App of another module path |
| DependencyOptions.CleanDependencyNames | pkg/gonvex/gonvex.go:402-410 | the loop trims the names and drops the blank ones |
| DependencyOptions.CleanMeaning | pkg/gonvex/gonvex.go:402-410 | which names are kept: in their order exactly those that are not blank, each trimmed |
| DependencyOptions.StringArguments | cmd/gonvex/main.go:621-629 | the loop keeps the readable string literals, trimmed, without blank ones |
| DependencyOptions.FunctionDependencies.ParseDependencyOption | cmd/gonvex/main.go:545-619 | the dependencies and the target after reading one expression |
| DependencyOptions.ReadOptions | cmd/gonvex/main.go:432-434 | the dependencies after reading all option expressions of a registration |
| DependencyOptions.ReadOption.Apply | pkg/gonvex/gonvex.go:279-318 | a chained call overwrites its field in every entry of its own builder |
| DependencyOptions.WriteOption.SetColumns | pkg/gonvex/gonvex.go:339-344 | a chained Columns overwrites the columns in every entry of its own builder |
| DependencyOptions.RunOptions | pkg/gonvex/gonvex.go:764-768 | the dependencies after running the builders and applying the options in order |
| DependencyOptions.ParsedFrame | cmd/gonvex/main.go:545-619 | for any expression: entries present before stay untouched, what is added does not depend on them, the target covers exactly the added entries, and a chain with a target changes nothing else |
| DependencyAgreement.HeardExactly | cmd/gonvex/main.go:621-629 | the reader keeps the texts the builders keep exactly when no literal that is not blank is unreadable, and fewer otherwise |
| DependencyAgreement.ReadsAgreeExactly | cmd/gonvex/main.go:591-611 | a Reads chain means the same both ways exactly when no table is lost and, if it names one, nothing of its last columns, filters, orderings and predicate name is |
| DependencyAgreement.ReadingMeansRunning | cmd/gonvex/main.go:545-619 | for every option list, readable or not in its spelling: reading equals running exactly when no table and nothing that decides about one is lost, and the last visibility resolver and shared result that are heard say what the last ones say |
| DependencyAgreement.ReadableOptionsAgree | cmd/gonvex/main.go:545-619 | with readable literals only blank names that replace others make a difference |
| DependencyAgreement.NamedOptionsAgree | pkg/gonvex/gonvex.go:186-410 | for readable literals without blank Predicate and Share names the reader finds what running declares |
| DependencyAgreement.RawTableIsLost | cmd/gonvex/main.go:621-629 | a table written as a raw string is declared but not found |
| DependencyAgreement.BlankResolverIsPassedOver | cmd/gonvex/main.go:574-578 | a blank resolver takes back an earlier one when run, but not when read |
| LoadRunner.MakeSessionPlans | cmd/gonvex-load/runner.go:727-740 | plan i is connection i div users of user i mod users |
| LoadRunner.OnePlanPerConnection | cmd/gonvex-load/runner.go:727-740 | a user and a connection index belong to exactly one plan, so each user has one index-0 connection |
| LoadRunner.MutationSchedules | cmd/gonvex-load/runner.go:1058-1085 | the schedules of a connection are those of its shares, in order |
| LoadRunner.RequestedMutationRate | cmd/gonvex-load/runner.go:1033-1040 | the loop adds up the requested rate |
| LoadRunner.RequestedMutationRates | cmd/gonvex-load/runner.go:1042-1052 | the loop adds up the requested rate of every path |
| LoadRunner.PlanRateIsItsSchedules | cmd/gonvex-load/runner.go:1058-1085 | the schedules of a connection come to its rate; a connection without mutations has none |
| LoadRunner.RatesAddUp | cmd/gonvex-load/runner.go:1029-1085 | for validated configs the rates of all connections sum to the requested rate, in all and for each path |
| LoadTiming.ActiveUsersAreNearest | cmd/gonvex-load/runner.go:1054-1056 | the users that take part are the whole number nearest to the fraction asked for, a half counting up |
| LoadTiming.RequestedPerMinute | cmd/gonvex-load/runner.go:1033-1052 | a minute of the requested rate: each mutation at its own rate and once more for each active user, and the overall rate |
| LoadTiming.SharePerMinute | cmd/gonvex-load/runner.go:1070-1074 | of the own rate every user has the same part; the rate per active user belongs to the first users, as many as are active |
| LoadTiming.ScheduleBegins | cmd/gonvex-load/runner.go:1058-1085 | a schedule fires at the rate of its share and is first due within its first interval, at the part of it that its phase says |
| LoadRunner.RunMutationWriter | cmd/gonvex-load/runner.go:1087-1152 | the loop fires the first of the schedules due soonest and moves it on as the outcome says |
| LoadRunner.NthFiringIsDue | cmd/gonvex-load/runner.go:1087-1152 | in every run the n-th firing of a schedule comes no earlier than its first due time and n intervals |
| LoadTiming.InTimeKeepsSchedule | cmd/gonvex-load/runner.go:1122-1151 | a writer that is in time keeps its schedule exactly: due as many intervals after the first due time as it has fired |
| LoadTiming.DueNext | cmd/gonvex-load/runner.go:1122-1151 | when a schedule is due after each outcome: one interval later, or one interval from now when that is past |
| LoadTiming.NeverPutOffFurther | cmd/gonvex-load/runner.go:1122-1151 | however late, a schedule is never put off by more than one interval |
| LoadRunner.RateIsBounded | cmd/gonvex-load/runner.go:1087-1152 | by time T a schedule has fired at most 1 + (T - first) / interval times, also after falling behind |
| LoadRunner.FiringsAreTurns | cmd/gonvex-load/runner.go:1097-1112 | the firings these statements speak of are the turns in which the loop chose the schedule |
| LoadRunner.NoBurstAfterSending | cmd/gonvex-load/runner.go:1147-1151 | after a sent mutation the next firing comes no earlier than the sending, and from then on the intervals add up: a late writer does not catch up |
| LoadRunner.ArgsFailedMayBurst | cmd/gonvex-load/runner.go:1122-1127 | after arguments that fail to expand it does: a schedule can fire n times more at once exactly when it is behind by n intervals |
| WindowTrim.MergeRowsIntoCache | apps/dashboard/src/App.tsx:1095-1122 | the result keeps old values and min(all, max(0, maxRows)) rows, those first in order of distance to the centre and then of index |
| WindowTrim.KeptRowsAreUnique | apps/dashboard/src/App.tsx:1107-1119 | that says which rows are kept: two caches that satisfy it are equal |
| WindowTrim.MergedAt | apps/dashboard/src/App.tsx:1095-1100 | before trimming every index holds the fresh row where there is one, else the old one |
| WindowTrim.FreshRowsKept | apps/dashboard/src/App.tsx:1095-1122 | all rows of the page are kept with their new values exactly when the page has at most maxRows rows, distance ties included |
| WindowTrim.VisibleRowsCovered | apps/dashboard/src/App.tsx:950-959 | the page picked covers every visible row exactly when no more rows are visible than a page holds |
| WindowTrim.PageFetched | apps/dashboard/src/App.tsx:950-959 | which page is picked: the one at the last stride up to 80 rows before the start if it reaches the end, else the one at the last stride up to the start, else the one that ends at the end |
| S3Encoding.DecodeEncode | pkg/storage/s3.go:592-608 | percent-decoding undoes uriEncode for every byte string, and the output is normal: unreserved bytes, upper-case triplets, and "/" only when left intact |
| S3Encoding.EncodedByte | pkg/storage/s3.go:592-608 | letters, digits and -._~ stand for themselves, any other byte becomes % and two upper-case hexadecimal digits, the slash only where asked |
| S3Encoding.EncodeDecode | pkg/storage/s3.go:592-608 | uriEncode undoes decoding for every normal text: its outputs are exactly the normal texts |
| S3Encoding.UriEncodeLoop | pkg/storage/s3.go:592-608 | the loop over the bytes builds the encoding |
| S3Encoding.PathKeepsItsSegments | pkg/storage/s3.go:574-587 | an encoded path is the path with its leading slash, encoded with slashes intact, and decodes to it |
| S3Encoding.SegmentsDecoded | pkg/storage/s3.go:574-587 | the segments of the encoded path decode, one by one, to the segments of the path with its leading slash |
| S3Encoding.PathsEncodedAlike | pkg/storage/s3.go:574-587 | two paths are encoded alike exactly when they differ at most in a leading slash |
| S3Encoding.EncodePathLoop | pkg/storage/s3.go:574-587 | the loop over the segments builds the encoded path |
| S3Encoding.CanonicalQueryString | pkg/storage/s3.go:541-552 | collecting, sorting and joining builds the canonical query string |
| S3Encoding.OrderDoesNotMatter | pkg/storage/s3.go:541-552 | the query string is the same whatever order the map hands out its keys in |
| S3Encoding.QueryAscends | pkg/storage/s3.go:541-552 | the query string lists every key once, encoded with its value, and the keys ascend byte by byte |
| S3Encoding.QueryRoundTrip | pkg/storage/s3.go:541-552 | parsing the query string gives back the map |

## Left out

- Calls of one key-value store that interleave at their awaits: each call is one step; a touch by an older read could
  then overwrite a newer record.
- The text of a stored record: a record is parsed or corrupt. `JsonReading.ParseStringify` is about the JSON values in
  it; white space, which the stores never print, is not read.
- Numbers inside JSON values are represented by their printed text; `NaN` and infinities, which JSON cannot hold, are
  not part of the model.
- Limits and ages are integers or absent; the text of a disable reason and `status()` are not modelled.
- The sync store's delete, clear, directives and close, the outbox store and the unavailable stubs: single table
  operations.
- BrowserCache.Harness.BootActiveOwner: runs its two halves one after the other; what happens when other calls come
  between them is stated in `BootRuns`.
- SharedWorker.SharedWorkerCacheCoordinator.HandleRequest: models the worker with an owner executor; the branch with a
  harness is left out. Messages to ports are a log.
- The order of tab ids (`localeCompare`) and the shard of a client (FNV hash) are parameters: any total order, any
  function into 64 shards.
- RecordCommit and RecordDelivery by timestamp: their fallback picks an arbitrary matching commit, so the event order
  shows.
- Propagation.PropagationAggregator.Report: delays equal the expected ones only under the condition of
  `ReportIsExactlyWhen`, because a report keeps what earlier ones have folded in.
- Propagation.OrderDoesNotMatter: needs each id to be committed once, since the last commit under an id decides.
- QueryRuns.WriteSurvivesExactly: needs the write to count as accessed last; `QueryEviction.RowSurvivesExactly` states
  the rest.
- Floating-point rounding, the truncation of durations to nanoseconds and integer overflow: rates, ratios and times
  are exact numbers.
- Go plugin building: compiling is an abstract step that yields a new App or fails; a panic inside it is not modelled.
- The loader is modelled on values rather than as a class, because its calls interleave between locks.
- A load's `packageName` only shapes the compiled source.
- The option reader's expressions are calls, selectors, identifiers and string literals, with a flag for the spellings
  JSON reads; arguments that are not literals are dropped by the reader and have no counterpart that is run. Sync and
  optimistic options are not read this way and are not modelled.
- Go texts that are trimmed are sequences of code points below U+10000; bytes that are not UTF-8 are not covered.
- Dependency lists: absent and empty lists are one, as in the printed manifest.
- Subscription counts in session plans, the sending of mutations and the accounting of results.
- Negative row indices in the dashboard's cache: keys are array indices, which JavaScript lists in ascending order.
- Request signing and everything else in S3 requests but the three text functions.
- User interface, HTTP, WebSocket, database and process sampling.
