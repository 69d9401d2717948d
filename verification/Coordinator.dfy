/** `CacheCoordinatorModel` (packages/client/src/cache-coordinator.ts): election of one owner tab
    for the browser database, failover, and routing. */
module Coordinator {
  import opened Texts
  import opened Options
  import opened OrderedMaps
  import opened Sorting

  /** A tab as a caller describes it; the last two flags may be left out. */
  datatype TabInfo = TabInfo(
    id: Text,
    hasLivenessLock: bool,
    dedicatedWorkerReady: bool,
    storageReady: Option<bool>,
    integrityVerified: Option<bool>)

  datatype Tab = Tab(
    id: Text,
    hasLivenessLock: bool,
    dedicatedWorkerReady: bool,
    storageReady: bool,
    integrityVerified: bool)

  /** What an update says about a field: nothing, that it is undefined, or its value. */
  datatype Field = Unnamed | Undefined | Value(value: bool)

  datatype Patch = Patch(
    hasLivenessLock: Field,
    dedicatedWorkerReady: Field,
    storageReady: Field,
    integrityVerified: Field)

  datatype Status = NoOwner | Electing | ActiveOwnerReady | OwnerLost | UnsafeFallbackDisabled

  datatype Route = ActiveWorker(tabId: Text) | Server(reason: Reason)

  datatype Reason = NoActiveOwner | OwnerNotReady | FallbackDisabled

  type Tabs = seq<Entry<Text, Tab>>

  datatype Model = Model(tabs: Tabs, active: Option<Text>, status: Status)

  datatype Call =
    | RegisterTab(tab: TabInfo)
    | UpdateTab(id: Text, patch: Patch)
    | CloseTab(id: Text)
    | DisableUnsafeFallback
    | VerifyActiveOwnerIntegrity
    | MarkActiveOwnerStorageReady
    | MarkActiveOwnerReady

  const FRESH := Model([], None, NoOwner)

  const INTEGRITY_PATCH := Patch(Unnamed, Unnamed, Unnamed, Value(true))
  const STORAGE_PATCH := Patch(Unnamed, Unnamed, Value(true), Unnamed)
  const READY_PATCH := Patch(Unnamed, Value(true), Value(true), Value(true))

  function Or(o: Option<bool>, default: bool): bool {
    match o case Some(b) => b case None => default
  }

  function Normalize(t: TabInfo): Tab {
    Tab(t.id, t.hasLivenessLock, t.dedicatedWorkerReady, Or(t.storageReady, false), Or(t.integrityVerified, false))
  }

  /** An undefined field counts as false wherever it is read. */
  function Overlaid(field: Field, current: bool): bool {
    match field case Unnamed => current case Undefined => false case Value(b) => b
  }

  function Patched(t: Tab, p: Patch): Tab {
    Tab(t.id, Overlaid(p.hasLivenessLock, t.hasLivenessLock), Overlaid(p.dedicatedWorkerReady, t.dedicatedWorkerReady),
        Overlaid(p.storageReady, t.storageReady), Overlaid(p.integrityVerified, t.integrityVerified))
  }

  function CanOwn(tab: Option<Tab>): bool {
    tab.Some? && tab.value.hasLivenessLock
  }

  function OwnerReady(tab: Option<Tab>): bool {
    tab.Some? && tab.value.dedicatedWorkerReady && tab.value.storageReady && tab.value.integrityVerified
  }

  /** JavaScript takes the empty string for false. */
  predicate Truthy(id: Option<Text>) {
    id.Some? && id.value != []
  }

  // ---------------------------------------------------------------- election

  /** `localeCompare` is a parameter: any total preorder on ids. */
  ghost predicate IdOrder(leq: (Text, Text) -> bool) {
    TotalPreorder(leq)
  }

  function ById(leq: (Text, Text) -> bool): (Tab, Tab) -> bool {
    (a: Tab, b: Tab) => leq(a.id, b.id)
  }

  /** The tabs that hold a liveness lock, in the order they were registered. */
  function Holders(tabs: Tabs): seq<Tab> {
    if tabs == [] then []
    else (if tabs[0].value.hasLivenessLock then [tabs[0].value] else []) + Holders(tabs[1..])
  }

  function NextOwner(tabs: Tabs, leq: (Text, Text) -> bool): Option<Tab> {
    var sorted := StableSort(Holders(tabs), ById(leq));
    if sorted == [] then None else Some(sorted[0])
  }

  function ReadyStatus(tab: Option<Tab>): Status {
    if OwnerReady(tab) then ActiveOwnerReady else Electing
  }

  /** `electIfNeeded` */
  function Elect(m: Model, leq: (Text, Text) -> bool): Model {
    if m.status.UnsafeFallbackDisabled? then m
    else if Truthy(m.active) && CanOwn(Find(m.tabs, m.active.value)) then
      m.(status := ReadyStatus(Find(m.tabs, m.active.value)))
    else
      match NextOwner(m.tabs, leq)
      case None => m.(active := None, status := if m.tabs != [] then Electing else NoOwner)
      case Some(tab) => m.(active := Some(tab.id), status := ReadyStatus(Some(tab)))
  }

  function Update(m: Model, id: Text, patch: Patch, leq: (Text, Text) -> bool): Model {
    match Find(m.tabs, id)
    case None => m
    case Some(tab) =>
      var next := m.(tabs := Put(m.tabs, id, Patched(tab, patch)));
      if m.active == Some(id) && !CanOwn(Some(Patched(tab, patch))) then
        Elect(next.(active := None, status := OwnerLost), leq)
      else Elect(next, leq)
  }

  function Close(m: Model, id: Text, leq: (Text, Text) -> bool): Model {
    var next := m.(tabs := Without(m.tabs, {id}));
    Elect(if m.active == Some(id) then next.(active := None, status := OwnerLost) else next, leq)
  }

  /** An update aimed at whichever tab is the active one. */
  function UpdateActive(m: Model, patch: Patch, leq: (Text, Text) -> bool): Model {
    if !Truthy(m.active) || m.status.UnsafeFallbackDisabled? then m else Update(m, m.active.value, patch, leq)
  }

  function Step(m: Model, call: Call, leq: (Text, Text) -> bool): Model {
    match call
    case RegisterTab(tab) => Elect(m.(tabs := Put(m.tabs, tab.id, Normalize(tab))), leq)
    case UpdateTab(id, patch) => Update(m, id, patch, leq)
    case CloseTab(id) => Close(m, id, leq)
    case DisableUnsafeFallback => m.(active := None, status := UnsafeFallbackDisabled)
    case VerifyActiveOwnerIntegrity => UpdateActive(m, INTEGRITY_PATCH, leq)
    case MarkActiveOwnerStorageReady => UpdateActive(m, STORAGE_PATCH, leq)
    case MarkActiveOwnerReady =>
      if !Truthy(m.active) || m.status.UnsafeFallbackDisabled? then m
      else Elect(UpdateActive(m, READY_PATCH, leq), leq)
  }

  /** `routeRequest` */
  function RouteOf(m: Model): Route {
    if m.status.UnsafeFallbackDisabled? then Server(FallbackDisabled)
    else if !Truthy(m.active) then Server(NoActiveOwner)
    else
      var tab := Find(m.tabs, m.active.value);
      if !CanOwn(tab) || !OwnerReady(tab) || m.status != ActiveOwnerReady then Server(OwnerNotReady)
      else ActiveWorker(m.active.value)
  }

  // ---------------------------------------------------------------- the class

  class CacheCoordinator {
    const compare: (Text, Text) -> bool
    var tabs: Tabs
    var activeTabId: Option<Text>
    var status: Status

    ghost function View(): Model
      reads this
    {
      Model(tabs, activeTabId, status)
    }

    constructor (localeCompare: (Text, Text) -> bool)
      ensures View() == FRESH && compare == localeCompare
    {
      compare := localeCompare;
      tabs, activeTabId, status := [], None, NoOwner;
    }

    method ElectIfNeeded()
      modifies this`activeTabId, this`status
      ensures View() == Elect(old(View()), compare)
    {
      if status == UnsafeFallbackDisabled {
        return;
      }
      if activeTabId.Some? && activeTabId.value != [] && CanOwn(Find(tabs, activeTabId.value)) {
        status := if OwnerReady(Find(tabs, activeTabId.value)) then ActiveOwnerReady else Electing;
        return;
      }
      var holders: seq<Tab> := [];
      for i := 0 to |tabs|
        invariant holders == Holders(tabs[..i])
        invariant View() == old(View())
      {
        HoldersNext(tabs, i);
        if tabs[i].value.hasLivenessLock {
          holders := holders + [tabs[i].value];
        }
      }
      assert tabs[..|tabs|] == tabs;
      var sorted := StableSort(holders, ById(compare));
      if sorted == [] {
        activeTabId := None;
        status := if |tabs| > 0 then Electing else NoOwner;
        return;
      }
      activeTabId := Some(sorted[0].id);
      status := if OwnerReady(Some(sorted[0])) then ActiveOwnerReady else Electing;
    }

    method DoRegisterTab(tab: TabInfo)
      modifies this
      ensures View() == Step(old(View()), RegisterTab(tab), compare)
    {
      tabs := Put(tabs, tab.id, Normalize(tab));
      ElectIfNeeded();
    }

    method DoUpdateTab(id: Text, patch: Patch)
      modifies this
      ensures View() == Step(old(View()), UpdateTab(id, patch), compare)
    {
      var current := Find(tabs, id);
      if current.None? {
        return;
      }
      PutFind(tabs, id, Patched(current.value, patch), id);
      tabs := Put(tabs, id, Patched(current.value, patch));
      if activeTabId == Some(id) && !CanOwn(Find(tabs, id)) {
        activeTabId := None;
        status := OwnerLost;
      }
      ElectIfNeeded();
    }

    method DoCloseTab(id: Text)
      modifies this
      ensures View() == Step(old(View()), CloseTab(id), compare)
    {
      tabs := Without(tabs, {id});
      if activeTabId == Some(id) {
        activeTabId := None;
        status := OwnerLost;
      }
      ElectIfNeeded();
    }

    method DoDisableUnsafeFallback()
      modifies this`activeTabId, this`status
      ensures View() == Step(old(View()), DisableUnsafeFallback, compare)
    {
      activeTabId := None;
      status := UnsafeFallbackDisabled;
    }

    method DoVerifyActiveOwnerIntegrity()
      modifies this
      ensures View() == Step(old(View()), VerifyActiveOwnerIntegrity, compare)
    {
      if !Truthy(activeTabId) || status == UnsafeFallbackDisabled {
        return;
      }
      DoUpdateTab(activeTabId.value, INTEGRITY_PATCH);
    }

    method DoMarkActiveOwnerStorageReady()
      modifies this
      ensures View() == Step(old(View()), MarkActiveOwnerStorageReady, compare)
    {
      if !Truthy(activeTabId) || status == UnsafeFallbackDisabled {
        return;
      }
      DoUpdateTab(activeTabId.value, STORAGE_PATCH);
    }

    method DoMarkActiveOwnerReady()
      modifies this
      ensures View() == Step(old(View()), MarkActiveOwnerReady, compare)
    {
      if !Truthy(activeTabId) || status == UnsafeFallbackDisabled {
        return;
      }
      DoUpdateTab(activeTabId.value, READY_PATCH);
      ElectIfNeeded();
    }

    method Snapshot() returns (m: Model)
      ensures m == View()
    {
      return Model(tabs, activeTabId, status);
    }

    method RouteRequest() returns (route: Route)
      ensures route == RouteOf(View())
    {
      if status == UnsafeFallbackDisabled {
        return Server(FallbackDisabled);
      }
      if !Truthy(activeTabId) {
        return Server(NoActiveOwner);
      }
      var active := Find(tabs, activeTabId.value);
      if !CanOwn(active) || !OwnerReady(active) || status != ActiveOwnerReady {
        return Server(OwnerNotReady);
      }
      return ActiveWorker(activeTabId.value);
    }
  }

  lemma HoldersNext(tabs: Tabs, i: nat)
    requires i < |tabs|
    ensures Holders(tabs[..i + 1])
            == if tabs[i].value.hasLivenessLock then Holders(tabs[..i]) + [tabs[i].value] else Holders(tabs[..i])
    decreases |tabs|
  {
    if i == 0 {
      assert tabs[..1][1..] == [];
    } else {
      HoldersNext(tabs[1..], i - 1);
      assert tabs[1..][..i] == tabs[..i + 1][1..] && tabs[1..][..i - 1] == tabs[..i][1..];
    }
  }

  // ---------------------------------------------------------------- what holds after every call

  ghost predicate WellFormed(tabs: Tabs) {
    UniqueKeys(tabs) && forall e :: e in tabs ==> e.key == e.value.id
  }

  ghost predicate LockHolder(tabs: Tabs, id: Text) {
    CanOwn(Find(tabs, id))
  }

  /** `id` is a least lock holder. */
  ghost predicate LeastHolder(tabs: Tabs, id: Text, leq: (Text, Text) -> bool) {
    LockHolder(tabs, id) && forall other :: LockHolder(tabs, other) ==> leq(id, other)
  }

  /** The status that goes with the tabs and the owner. */
  function StatusOf(tabs: Tabs, active: Option<Text>): Status {
    match active
    case None => if tabs == [] then NoOwner else Electing
    case Some(id) => ReadyStatus(Find(tabs, id))
  }

  /** At rest: an owner exists exactly when some registered tab holds a lock, it is one of them, and the
      status is the one that goes with them; a disabled coordinator has no owner. */
  ghost predicate AtRest(m: Model) {
    && WellFormed(m.tabs)
    && m.status != OwnerLost
    && (m.status.UnsafeFallbackDisabled? ==> m.active.None?)
    && (!m.status.UnsafeFallbackDisabled? ==>
          && (m.active.Some? <==> exists id :: LockHolder(m.tabs, id))
          && (m.active.Some? ==> LockHolder(m.tabs, m.active.value))
          && m.status == StatusOf(m.tabs, m.active))
  }

  lemma {:induction false} HoldersMember(tabs: Tabs, t: Tab)
    ensures t in Holders(tabs) <==> t.hasLivenessLock && exists k :: Entry(k, t) in tabs
  {
    if tabs != [] {
      assert tabs == [tabs[0]] + tabs[1..];
      HoldersMember(tabs[1..], t);
      if t in Holders(tabs) {
        if tabs[0].value == t && t.hasLivenessLock {
          assert Entry(tabs[0].key, t) == tabs[0];
          assert Entry(tabs[0].key, t) in tabs;
        } else {
          var k :| Entry(k, t) in tabs[1..];
          assert Entry(k, t) in tabs;
        }
      }
      if t.hasLivenessLock && exists k :: Entry(k, t) in tabs {
        var k :| Entry(k, t) in tabs;
        assert tabs == [tabs[0]] + tabs[1..];
        assert tabs[0] != Entry(k, t) ==> Entry(k, t) in tabs[1..];
      }
    }
  }

  lemma HolderIds(tabs: Tabs, id: Text)
    requires WellFormed(tabs)
    ensures LockHolder(tabs, id) <==> exists t :: t in Holders(tabs) && t.id == id
  {
    if LockHolder(tabs, id) {
      var t := Find(tabs, id).value;
      assert Entry(id, t) in tabs;
      HoldersMember(tabs, t);
      assert t.id == id;
    }
    if exists t :: t in Holders(tabs) && t.id == id {
      var t :| t in Holders(tabs) && t.id == id;
      HoldersMember(tabs, t);
      var k :| Entry(k, t) in tabs;
      FindMember(tabs, Entry(k, t));
    }
  }

  lemma OrderById(leq: (Text, Text) -> bool)
    requires IdOrder(leq)
    ensures TotalPreorder(ById(leq))
  {
    var order := ById(leq);
    forall a, b ensures order(a, b) || order(b, a) {
      assert leq(a.id, b.id) || leq(b.id, a.id);
    }
    forall a, b, c | order(a, b) && order(b, c) ensures order(a, c) {
      assert leq(a.id, b.id) && leq(b.id, c.id);
    }
  }

  /** Election picks a least lock holder, and fails only when there is none. */
  lemma NextOwnerIsLeast(tabs: Tabs, leq: (Text, Text) -> bool)
    requires WellFormed(tabs) && IdOrder(leq)
    ensures var next := NextOwner(tabs, leq);
            if next.Some? then Find(tabs, next.value.id) == next && LeastHolder(tabs, next.value.id, leq)
            else forall id :: !LockHolder(tabs, id)
  {
    var holders, order := Holders(tabs), ById(leq);
    OrderById(leq);
    StableSortSorted(holders, order);
    StableSortMembers(holders, order);
    var sorted := StableSort(holders, order);
    if sorted == [] {
      forall id ensures !LockHolder(tabs, id) { HolderIds(tabs, id); }
    } else {
      var t := sorted[0];
      assert t in holders;
      HoldersMember(tabs, t);
      var k :| Entry(k, t) in tabs;
      FindMember(tabs, Entry(k, t));
      forall other | LockHolder(tabs, other) ensures leq(t.id, other) {
        HolderIds(tabs, other);
        var u :| u in holders && u.id == other;
        assert u in sorted;
        var j :| 0 <= j < |sorted| && sorted[j] == u;
        assert leq(t.id, t.id) && (j > 0 ==> order(sorted[0], sorted[j]));
      }
    }
  }

  /** An election on any well-formed tab list ends at rest; it keeps an owner that may stay and
      otherwise picks a least lock holder. */
  lemma ElectRests(m: Model, leq: (Text, Text) -> bool)
    requires WellFormed(m.tabs) && IdOrder(leq)
    requires m.status.UnsafeFallbackDisabled? ==> m.active.None?
    ensures AtRest(Elect(m, leq))
    ensures Elect(m, leq).tabs == m.tabs
    ensures Elect(m, leq).status.UnsafeFallbackDisabled? <==> m.status.UnsafeFallbackDisabled?
    ensures !m.status.UnsafeFallbackDisabled? ==>
              var m' := Elect(m, leq);
              if Truthy(m.active) && LockHolder(m.tabs, m.active.value) then m'.active == m.active
              else m'.active.Some? ==> LeastHolder(m.tabs, m'.active.value, leq)
  {
    NextOwnerIsLeast(m.tabs, leq);
    var m' := Elect(m, leq);
    if m'.active.Some? {
      assert LockHolder(m.tabs, m'.active.value);
    }
  }

  /** The call takes away tab `a`'s registration or lock, or disables the coordinator. */
  predicate Unseats(call: Call, a: Text) {
    match call
    case RegisterTab(tab) => tab.id == a && !tab.hasLivenessLock
    case UpdateTab(id, patch) => id == a && (patch.hasLivenessLock == Value(false) || patch.hasLivenessLock == Undefined)
    case CloseTab(id) => id == a
    case DisableUnsafeFallback => true
    case _ => false
  }

  /** How the owner may move in one call: it leaves a tab (with a non-empty id) exactly when the call
      unseats that tab, and a new owner is a least lock holder. */
  ghost predicate OwnerMoves(m: Model, m': Model, leq: (Text, Text) -> bool, call: Call) {
    && (Truthy(m.active) ==> (m'.active != m.active <==> Unseats(call, m.active.value)))
    && (m'.active.Some? && m'.active != m.active ==> LeastHolder(m'.tabs, m'.active.value, leq))
  }

  /** The election that follows a change of the tabs, from a coordinator at rest. */
  lemma AfterChange(m: Model, next: Model, leq: (Text, Text) -> bool, call: Call)
    requires AtRest(m) && IdOrder(leq) && WellFormed(next.tabs)
    requires next.status.UnsafeFallbackDisabled? <==> m.status.UnsafeFallbackDisabled?
    requires m.active.Some? ==> (Unseats(call, m.active.value) <==> !LockHolder(next.tabs, m.active.value))
    requires next.active == m.active || (next.active.None? && Unseats(call, m.active.value))
    ensures var m' := Elect(next, leq);
            && AtRest(m') && OwnerMoves(m, m', leq, call)
            && (m'.status.UnsafeFallbackDisabled? <==> m.status.UnsafeFallbackDisabled?)
  {
    ElectRests(next, leq);
  }

  lemma PutWellFormed(tabs: Tabs, tab: Tab)
    requires WellFormed(tabs)
    ensures WellFormed(Put(tabs, tab.id, tab))
  {
    PutUnique(tabs, tab.id, tab);
    forall e | e in Put(tabs, tab.id, tab) ensures e.key == e.value.id {
      PutMember(tabs, tab.id, tab, e);
    }
  }

  lemma WithoutWellFormed(tabs: Tabs, id: Text)
    requires WellFormed(tabs)
    ensures WellFormed(Without(tabs, {id}))
  {
    WithoutUnique(tabs, {id});
    forall e | e in Without(tabs, {id}) ensures e.key == e.value.id {
      WithoutMember(tabs, {id}, e);
    }
  }

  lemma LockAfterPut(tabs: Tabs, id: Text, t: Tab, a: Text)
    ensures LockHolder(Put(tabs, id, t), a) <==> if a == id then t.hasLivenessLock else LockHolder(tabs, a)
  {
    PutFind(tabs, id, t, a);
  }

  /** An update of a known tab unseats the owner exactly when the owner's lock is gone afterwards. */
  lemma UpdateUnseats(tabs: Tabs, id: Text, patch: Patch, owner: Text)
    requires Find(tabs, id).Some? && LockHolder(tabs, owner)
    ensures var t := Patched(Find(tabs, id).value, patch);
            && (Unseats(UpdateTab(id, patch), owner) <==> !LockHolder(Put(tabs, id, t), owner))
            && (owner == id && !CanOwn(Some(t)) ==> Unseats(UpdateTab(id, patch), id))
  {
    LockAfterPut(tabs, id, Patched(Find(tabs, id).value, patch), owner);
  }

  lemma PatchedWellFormed(tabs: Tabs, id: Text, patch: Patch)
    requires WellFormed(tabs) && Find(tabs, id).Some?
    ensures WellFormed(Put(tabs, id, Patched(Find(tabs, id).value, patch)))
  {
    KeyIsId(tabs, id);
    PutWellFormed(tabs, Patched(Find(tabs, id).value, patch));
  }

  lemma KeyIsId(tabs: Tabs, id: Text)
    requires WellFormed(tabs) && Find(tabs, id).Some?
    ensures Find(tabs, id).value.id == id
  {
    FindMember(tabs, Entry(id, Find(tabs, id).value));
  }

  lemma UpdateRests(m: Model, id: Text, patch: Patch, leq: (Text, Text) -> bool)
    requires AtRest(m) && IdOrder(leq)
    ensures AtRest(Update(m, id, patch, leq))
    ensures OwnerMoves(m, Update(m, id, patch, leq), leq, UpdateTab(id, patch))
    ensures Update(m, id, patch, leq).status.UnsafeFallbackDisabled? <==> m.status.UnsafeFallbackDisabled?
  {
    if Find(m.tabs, id).Some? {
      var t := Patched(Find(m.tabs, id).value, patch);
      var next := m.(tabs := Put(m.tabs, id, t));
      PatchedWellFormed(m.tabs, id, patch);
      if m.active.Some? { UpdateUnseats(m.tabs, id, patch, m.active.value); }
      if m.active == Some(id) && !CanOwn(Some(t)) {
        AfterChange(m, next.(active := None, status := OwnerLost), leq, UpdateTab(id, patch));
      } else {
        AfterChange(m, next, leq, UpdateTab(id, patch));
      }
    } else {
      UnknownUnseats(m, id, patch);
    }
  }

  lemma UnknownUnseats(m: Model, id: Text, patch: Patch)
    requires AtRest(m) && Find(m.tabs, id).None?
    ensures m.active.Some? ==> !Unseats(UpdateTab(id, patch), m.active.value)
  {
  }

  lemma RegisterRests(m: Model, info: TabInfo, leq: (Text, Text) -> bool)
    requires AtRest(m) && IdOrder(leq)
    ensures AtRest(Step(m, RegisterTab(info), leq))
    ensures OwnerMoves(m, Step(m, RegisterTab(info), leq), leq, RegisterTab(info))
    ensures Step(m, RegisterTab(info), leq).status.UnsafeFallbackDisabled? <==> m.status.UnsafeFallbackDisabled?
  {
    var t := Normalize(info);
    PutWellFormed(m.tabs, t);
    if m.active.Some? {
      PutFind(m.tabs, t.id, t, m.active.value);
    }
    AfterChange(m, m.(tabs := Put(m.tabs, t.id, t)), leq, RegisterTab(info));
  }

  lemma CloseRests(m: Model, id: Text, leq: (Text, Text) -> bool)
    requires AtRest(m) && IdOrder(leq)
    ensures AtRest(Close(m, id, leq))
    ensures OwnerMoves(m, Close(m, id, leq), leq, CloseTab(id))
    ensures Close(m, id, leq).status.UnsafeFallbackDisabled? <==> m.status.UnsafeFallbackDisabled?
  {
    WithoutWellFormed(m.tabs, id);
    var next := m.(tabs := Without(m.tabs, {id}));
    if m.active.Some? {
      WithoutFind(m.tabs, {id}, m.active.value);
    }
    AfterChange(m, if m.active == Some(id) then next.(active := None, status := OwnerLost) else next, leq, CloseTab(id));
  }

  /** An update of the active tab that leaves its lock alone unseats nobody. */
  lemma ActiveRests(m: Model, patch: Patch, call: Call, leq: (Text, Text) -> bool)
    requires AtRest(m) && IdOrder(leq) && patch.hasLivenessLock == Unnamed
    requires !call.RegisterTab? && !call.UpdateTab? && !call.CloseTab? && !call.DisableUnsafeFallback?
    ensures var m' := UpdateActive(m, patch, leq);
            && AtRest(m') && OwnerMoves(m, m', leq, call)
            && (m'.status.UnsafeFallbackDisabled? <==> m.status.UnsafeFallbackDisabled?)
  {
    if Truthy(m.active) {
      UpdateRests(m, m.active.value, patch, leq);
    }
  }

  /** An election at rest changes nothing but, with the empty id for an owner, the owner. */
  lemma ElectAgain(m: Model, leq: (Text, Text) -> bool)
    requires AtRest(m) && Truthy(m.active)
    ensures Elect(m, leq) == m
  {
  }

  /** One public call: it ends at rest, and moves the owner only as `OwnerMoves` says. */
  lemma StepRests(m: Model, call: Call, leq: (Text, Text) -> bool)
    requires AtRest(m) && IdOrder(leq)
    ensures AtRest(Step(m, call, leq))
    ensures OwnerMoves(m, Step(m, call, leq), leq, call)
    ensures Step(m, call, leq).status.UnsafeFallbackDisabled?
            <==> m.status.UnsafeFallbackDisabled? || call.DisableUnsafeFallback?
  {
    match call
    case RegisterTab(info) => RegisterRests(m, info, leq);
    case UpdateTab(id, patch) => UpdateRests(m, id, patch, leq);
    case CloseTab(id) => CloseRests(m, id, leq);
    case DisableUnsafeFallback =>
    case VerifyActiveOwnerIntegrity => ActiveRests(m, INTEGRITY_PATCH, call, leq);
    case MarkActiveOwnerStorageReady => ActiveRests(m, STORAGE_PATCH, call, leq);
    case MarkActiveOwnerReady =>
      ActiveRests(m, READY_PATCH, call, leq);
      if Truthy(m.active) { ElectAgain(UpdateActive(m, READY_PATCH, leq), leq); }
  }

  // ---------------------------------------------------------------- runs

  ghost function Run(calls: seq<Call>, leq: (Text, Text) -> bool): Model {
    if calls == [] then FRESH else Step(Run(calls[..|calls| - 1], leq), calls[|calls| - 1], leq)
  }

  /** What holds after every public call of every run. */
  lemma {:induction false} RunRests(calls: seq<Call>, leq: (Text, Text) -> bool)
    requires IdOrder(leq)
    ensures AtRest(Run(calls, leq))
    ensures Run(calls, leq).status.UnsafeFallbackDisabled? <==> DisableUnsafeFallback in calls
  {
    if calls != [] {
      var n := |calls| - 1;
      RunRests(calls[..n], leq);
      StepRests(Run(calls[..n], leq), calls[n], leq);
      assert calls == calls[..n] + [calls[n]];
    } else {
      FreshRests();
    }
  }

  lemma FreshRests()
    ensures AtRest(FRESH)
  {
    forall id ensures !LockHolder([], id) {}
  }

  /** Disabled is absorbing, for any later calls. */
  lemma DisabledForGood(calls: seq<Call>, more: seq<Call>, leq: (Text, Text) -> bool)
    requires IdOrder(leq) && DisableUnsafeFallback in calls
    ensures var m := Run(calls + more, leq);
            m.status.UnsafeFallbackDisabled? && m.active.None? && RouteOf(m) == Server(FallbackDisabled)
  {
    RunRests(calls + more, leq);
  }

  /** Requests go to the active worker exactly when the status says it is ready — except that an owner
      whose id is the empty string never gets any. */
  lemma RouteExactly(m: Model)
    requires AtRest(m)
    ensures RouteOf(m).ActiveWorker? <==> m.status.ActiveOwnerReady? && m.active != Some([])
    ensures RouteOf(m).ActiveWorker? ==> RouteOf(m).tabId == m.active.value
                                         && LockHolder(m.tabs, m.active.value)
                                         && OwnerReady(Find(m.tabs, m.active.value))
  {
  }

  /** The empty id in full: ready by its status, yet no request is routed to it. */
  lemma EmptyIdIsNeverRouted(leq: (Text, Text) -> bool)
    requires IdOrder(leq)
    ensures var m := Run([RegisterTab(TabInfo([], true, true, Some(true), Some(true)))], leq);
            m.status.ActiveOwnerReady? && m.active == Some([]) && RouteOf(m) == Server(NoActiveOwner)
  {
    var call := RegisterTab(TabInfo([], true, true, Some(true), Some(true)));
    assert [call][..0] == [];
    var t := Normalize(call.tab);
    var tabs: Tabs := [Entry([], t)];
    assert Put([], [], t) == tabs;
    assert tabs[1..] == [];
    assert Holders(tabs) == [t];
    SortOne(t, ById(leq));
  }

  lemma OwnerStaysOnce(m: Model, call: Call, leq: (Text, Text) -> bool)
    requires AtRest(m) && IdOrder(leq) && Truthy(m.active) && !Unseats(call, m.active.value)
    ensures Step(m, call, leq).active == m.active
  {
    StepRests(m, call, leq);
  }

  lemma RunOneMore(calls: seq<Call>, j: nat, leq: (Text, Text) -> bool)
    requires 0 < j <= |calls|
    ensures Run(calls[..j], leq) == Step(Run(calls[..j - 1], leq), calls[j - 1], leq)
  {
    assert calls[..j][..j - 1] == calls[..j - 1] && calls[..j][j - 1] == calls[j - 1];
  }

  /** The owner stays as long as no call unseats it. */
  lemma {:induction false} OwnerStays(calls: seq<Call>, i: nat, j: nat, leq: (Text, Text) -> bool)
    requires IdOrder(leq) && i <= j <= |calls|
    requires Truthy(Run(calls[..i], leq).active)
    requires forall k :: i <= k < j ==> !Unseats(calls[k], Run(calls[..i], leq).active.value)
    ensures Run(calls[..j], leq).active == Run(calls[..i], leq).active
    decreases j
  {
    if i < j {
      OwnerStays(calls, i, j - 1, leq);
      RunRests(calls[..j - 1], leq);
      RunOneMore(calls, j, leq);
      OwnerStaysOnce(Run(calls[..j - 1], leq), calls[j - 1], leq);
    }
  }

  /** Single writer: between two calls that unseat the owner, every request that goes to a worker goes to
      the same tab. */
  lemma RoutesAgree(calls: seq<Call>, i: nat, j: nat, leq: (Text, Text) -> bool)
    requires IdOrder(leq) && i <= j <= |calls|
    requires RouteOf(Run(calls[..i], leq)).ActiveWorker? && RouteOf(Run(calls[..j], leq)).ActiveWorker?
    requires forall k :: i <= k < j ==> !Unseats(calls[k], RouteOf(Run(calls[..i], leq)).tabId)
    ensures RouteOf(Run(calls[..i], leq)) == RouteOf(Run(calls[..j], leq))
  {
    OwnerStays(calls, i, j, leq);
  }

  lemma MarkedTabs(m: Model, leq: (Text, Text) -> bool)
    requires Truthy(m.active) && !m.status.UnsafeFallbackDisabled? && Find(m.tabs, m.active.value).Some?
    ensures var id := m.active.value;
            Step(m, MarkActiveOwnerReady, leq).tabs == Put(m.tabs, id, Patched(Find(m.tabs, id).value, READY_PATCH))
  {
  }

  /** Marking the active owner ready makes it, and no other tab, the target of requests. */
  lemma MarksActive(m: Model, leq: (Text, Text) -> bool)
    requires AtRest(m) && IdOrder(leq) && Truthy(m.active)
    ensures RouteOf(Step(m, MarkActiveOwnerReady, leq)) == ActiveWorker(m.active.value)
  {
    StepRests(m, MarkActiveOwnerReady, leq);
    MarkedTabs(m, leq);
    var id := m.active.value;
    PutFind(m.tabs, id, Patched(Find(m.tabs, id).value, READY_PATCH), id);
    RouteExactly(Step(m, MarkActiveOwnerReady, leq));
  }
}
