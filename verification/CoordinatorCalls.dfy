/** What each call of `CacheCoordinatorModel` (packages/client/src/cache-coordinator.ts) does to the tabs, flag by flag,
    and what routes and status say about them. */
module CoordinatorCalls {
  import opened Texts
  import opened Options
  import opened OrderedMaps
  import opened Coordinator

  /** The tab holds its lock, its worker and storage are ready and its integrity is verified. */
  predicate CanServe(tabs: Tabs, id: Text) {
    match Find(tabs, id)
    case None => false
    case Some(t) => t.hasLivenessLock && t.dedicatedWorkerReady && t.storageReady && t.integrityVerified
  }

  /** At rest requests go to a tab exactly when it is the owner, its id is not empty and it holds its lock with all
      three of its flags set; otherwise the reason says what is missing. */
  lemma RouteMeaning(m: Model, id: Text)
    requires AtRest(m)
    ensures RouteOf(m) == ActiveWorker(id) <==> id != [] && m.active == Some(id) && CanServe(m.tabs, id)
    ensures RouteOf(m) == Server(FallbackDisabled) <==> m.status.UnsafeFallbackDisabled?
    ensures RouteOf(m) == Server(NoActiveOwner)
            <==> !m.status.UnsafeFallbackDisabled? && (m.active == None || m.active == Some([]))
    ensures RouteOf(m) == Server(OwnerNotReady)
            <==> m.active.Some? && m.active.value != [] && !CanServe(m.tabs, m.active.value)
  {
  }

  /** At rest the status tells the owner and its flags. */
  lemma StatusMeaning(m: Model)
    requires AtRest(m)
    ensures m.status == ActiveOwnerReady <==> m.active.Some? && CanServe(m.tabs, m.active.value)
    ensures m.status == NoOwner <==> m.tabs == [] && !m.status.UnsafeFallbackDisabled?
    ensures m.status == Electing
            <==> m.tabs != [] && !m.status.UnsafeFallbackDisabled?
                 && (m.active.None? || !CanServe(m.tabs, m.active.value))
  {
    if m.active.None? && m.tabs == [] {
      assert StatusOf(m.tabs, None) == NoOwner;
    }
  }

  /** A flag after an update: kept when the update does not name it, false when it is named as undefined. */
  predicate FlagAfter(field: Field, was: bool, now: bool) {
    && (field == Unnamed ==> now == was)
    && (field == Undefined ==> !now)
    && (field.Value? ==> now == field.value)
  }

  /** Registering a tab files it with its flags, those left out being false, and touches no other. */
  lemma RegisteredTab(m: Model, info: TabInfo, leq: (Text, Text) -> bool, id: Text)
    ensures var tabs := Step(m, RegisterTab(info), leq).tabs;
            Find(tabs, id)
            == if id == info.id
               then Some(Tab(id, info.hasLivenessLock, info.dedicatedWorkerReady, info.storageReady == Some(true),
                             info.integrityVerified == Some(true)))
               else Find(m.tabs, id)
  {
    ElectKeepsTabs(m.(tabs := Put(m.tabs, info.id, Normalize(info))), leq);
    PutFind(m.tabs, info.id, Normalize(info), id);
  }

  lemma ElectKeepsTabs(m: Model, leq: (Text, Text) -> bool)
    ensures Elect(m, leq).tabs == m.tabs
  {
  }

  lemma UpdateTabs(m: Model, id: Text, patch: Patch, leq: (Text, Text) -> bool)
    requires Find(m.tabs, id).Some?
    ensures Update(m, id, patch, leq).tabs == Put(m.tabs, id, Patched(Find(m.tabs, id).value, patch))
  {
    var next := m.(tabs := Put(m.tabs, id, Patched(Find(m.tabs, id).value, patch)));
    ElectKeepsTabs(next, leq);
    ElectKeepsTabs(next.(active := None, status := OwnerLost), leq);
  }

  /** What an update says about each flag of a tab. */
  predicate FlagsAfter(patch: Patch, was: Tab, now: Tab) {
    && now.id == was.id
    && FlagAfter(patch.hasLivenessLock, was.hasLivenessLock, now.hasLivenessLock)
    && FlagAfter(patch.dedicatedWorkerReady, was.dedicatedWorkerReady, now.dedicatedWorkerReady)
    && FlagAfter(patch.storageReady, was.storageReady, now.storageReady)
    && FlagAfter(patch.integrityVerified, was.integrityVerified, now.integrityVerified)
  }

  lemma PatchedFlags(t: Tab, patch: Patch)
    ensures FlagsAfter(patch, t, Patched(t, patch))
  {
  }

  /** Updating a tab that is registered changes its flags as named, and touches no other. */
  lemma UpdatedTab(m: Model, own: Text, patch: Patch, leq: (Text, Text) -> bool, id: Text)
    ensures var tabs := Update(m, own, patch, leq).tabs;
            && Step(m, UpdateTab(own, patch), leq) == Update(m, own, patch, leq)
            && (Find(m.tabs, own).None? ==> Update(m, own, patch, leq) == m)
            && (id != own ==> Find(tabs, id) == Find(m.tabs, id))
            && (Find(m.tabs, own).Some? ==>
                  Find(tabs, own).Some? && FlagsAfter(patch, Find(m.tabs, own).value, Find(tabs, own).value))
  {
    if Find(m.tabs, own).Some? {
      var now := Patched(Find(m.tabs, own).value, patch);
      UpdateTabs(m, own, patch, leq);
      PutFind(m.tabs, own, now, id);
      PutFind(m.tabs, own, now, own);
      PatchedFlags(Find(m.tabs, own).value, patch);
    }
  }

  /** Closing a tab removes it and no other. */
  lemma ClosedTab(m: Model, own: Text, leq: (Text, Text) -> bool, id: Text)
    requires UniqueKeys(m.tabs)
    ensures Find(Step(m, CloseTab(own), leq).tabs, id) == if id == own then None else Find(m.tabs, id)
  {
    var next := m.(tabs := Without(m.tabs, {own}));
    ElectKeepsTabs(next, leq);
    ElectKeepsTabs(next.(active := None, status := OwnerLost), leq);
    WithoutFind(m.tabs, {own}, id);
  }

  /** Without an owner the marking calls do nothing. */
  lemma NobodyMarked(m: Model, leq: (Text, Text) -> bool)
    requires AtRest(m) && (m.active == None || m.active == Some([]))
    ensures Step(m, VerifyActiveOwnerIntegrity, leq) == m
    ensures Step(m, MarkActiveOwnerStorageReady, leq) == m
    ensures Step(m, MarkActiveOwnerReady, leq) == m
  {
  }

  lemma FlagsOf(t: Tab)
    ensures Patched(t, INTEGRITY_PATCH) == t.(integrityVerified := true)
    ensures Patched(t, STORAGE_PATCH) == t.(storageReady := true)
    ensures Patched(t, READY_PATCH) == t.(dedicatedWorkerReady := true, storageReady := true, integrityVerified := true)
  {
  }

  /** Verifying the integrity of the owner sets that flag, on the owner alone. */
  lemma IntegrityMarked(m: Model, leq: (Text, Text) -> bool)
    requires m.active.Some? && m.active.value != [] && !m.status.UnsafeFallbackDisabled?
    requires Find(m.tabs, m.active.value).Some?
    ensures Step(m, VerifyActiveOwnerIntegrity, leq).tabs
            == Put(m.tabs, m.active.value, Find(m.tabs, m.active.value).value.(integrityVerified := true))
  {
    UpdateTabs(m, m.active.value, INTEGRITY_PATCH, leq);
    FlagsOf(Find(m.tabs, m.active.value).value);
  }

  /** Marking its storage ready sets that flag. */
  lemma StorageMarked(m: Model, leq: (Text, Text) -> bool)
    requires m.active.Some? && m.active.value != [] && !m.status.UnsafeFallbackDisabled?
    requires Find(m.tabs, m.active.value).Some?
    ensures Step(m, MarkActiveOwnerStorageReady, leq).tabs
            == Put(m.tabs, m.active.value, Find(m.tabs, m.active.value).value.(storageReady := true))
  {
    UpdateTabs(m, m.active.value, STORAGE_PATCH, leq);
    FlagsOf(Find(m.tabs, m.active.value).value);
  }

  /** Marking it ready sets all three flags. */
  lemma ReadyMarked(m: Model, leq: (Text, Text) -> bool)
    requires m.active.Some? && m.active.value != [] && !m.status.UnsafeFallbackDisabled?
    requires Find(m.tabs, m.active.value).Some?
    ensures Step(m, MarkActiveOwnerReady, leq).tabs
            == Put(m.tabs, m.active.value, Find(m.tabs, m.active.value).value
                  .(dedicatedWorkerReady := true, storageReady := true, integrityVerified := true))
  {
    MarkedTabs(m, leq);
    FlagsOf(Find(m.tabs, m.active.value).value);
  }
}
