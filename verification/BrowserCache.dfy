/** `BrowserCacheCoordinatorHarness` and `FakeTabWorker` (packages/client/src/browser-cache.ts): one
    worker per tab, of which only the active owner's executes requests. */
module BrowserCache {
  import opened Texts
  import opened Options
  import opened OrderedMaps
  import opened Coordinator
  import opened CoordinatorCalls
  import Json

  type WorkerState = map<Text, Json.Value>

  datatype Operation = ReadOperation | WriteOperation

  /** What running a request against a worker's state does: leave a state, and return a value or throw. */
  datatype Execution = Execution(state: WorkerState, value: Option<Json.Value>)

  datatype LocalRequest = LocalRequest(operation: Operation, execute: WorkerState -> Execution)

  datatype LocalResponse =
    | Served(ownerTabId: Text, value: Json.Value)
    | ToServer(reason: Reason)
    | ActiveWorkerMissing
    | LocalDbError

  datatype LogEntry = LogEntry(requestingTabId: Text, ownerTabId: Option<Text>, operation: Operation)

  datatype WorkerView = WorkerView(state: WorkerState, openCount: nat, writeCount: nat)

  const NEW_WORKER := WorkerView(map[], 0, 0)

  /** The worker after one request. */
  function Executed(w: WorkerView, request: LocalRequest): WorkerView {
    WorkerView(request.execute(w.state).state, w.openCount,
               w.writeCount + if request.operation.WriteOperation? then 1 else 0)
  }

  // ---------------------------------------------------------------- registration and boots, as functions of the state

  datatype HarnessEvent = Coordinate(call: Call) | BootBegins | BootEnds

  /** The coordinator, and how often the worker of each tab has been opened. */
  datatype HarnessState = HarnessState(model: Model, opens: map<Text, nat>)

  /** A boot opens the worker of the active tab, waits, and then marks whichever tab is the active one. A tab that is
      registered again gets a new worker. */
  function HarnessStep(s: HarnessState, event: HarnessEvent, leq: (Text, Text) -> bool): HarnessState {
    match event
    case Coordinate(call) =>
      HarnessState(Step(s.model, call, leq), if call.RegisterTab? then s.opens[call.tab.id := 0] else s.opens)
    case BootBegins =>
      if Truthy(s.model.active) && s.model.active.value in s.opens then
        s.(opens := s.opens[s.model.active.value := s.opens[s.model.active.value] + 1])
      else s
    case BootEnds => s.(model := Step(s.model, MarkActiveOwnerReady, leq))
  }

  class FakeTabWorker {
    const tabId: Text
    var state: WorkerState
    var openCount: nat
    var writeCount: nat

    ghost function View(): WorkerView
      reads this
    {
      WorkerView(state, openCount, writeCount)
    }

    constructor (id: Text)
      ensures tabId == id && View() == NEW_WORKER
    {
      tabId, state, openCount, writeCount := id, map[], 0, 0;
    }

    method Boot()
      modifies this`openCount
      ensures openCount == old(openCount) + 1
    {
      openCount := openCount + 1;
    }

    method Execute(request: LocalRequest) returns (value: Option<Json.Value>)
      modifies this`state, this`writeCount
      ensures View() == Executed(old(View()), request)
      ensures state == request.execute(old(state)).state && value == request.execute(old(state)).value
      ensures writeCount == old(writeCount) + (if request.operation == WriteOperation then 1 else 0)
    {
      if request.operation == WriteOperation {
        writeCount := writeCount + 1;
      }
      var execution := request.execute(state);
      state := execution.state;
      value := execution.value;
    }
  }

  class Harness {
    const coordinator: CacheCoordinator
    var workers: map<Text, FakeTabWorker>
    var requestLog: seq<LogEntry>

    /** Different tabs have different workers. */
    ghost predicate Valid()
      reads this, coordinator
    {
      && WellFormed(coordinator.tabs)
      && forall a, b :: a in workers && b in workers && a != b ==> workers[a] != workers[b]
    }

    /** Every tab the coordinator knows has a worker, as when all tabs come through the harness. */
    ghost predicate Covered()
      reads this, coordinator
    {
      KeySet(coordinator.tabs) <= workers.Keys
    }

    ghost function Machine(): HarnessState
      reads this, coordinator, workers.Values
    {
      HarnessState(coordinator.View(), map id | id in workers :: workers[id].openCount)
    }

    constructor (localeCompare: (Text, Text) -> bool)
      ensures Valid() && Covered() && workers == map[] && requestLog == []
      ensures fresh(coordinator) && coordinator.View() == FRESH && coordinator.compare == localeCompare
    {
      coordinator := new CacheCoordinator(localeCompare);
      workers, requestLog := map[], [];
    }

    method RegisterTab(tab: TabInfo)
      requires Valid()
      modifies this`workers, coordinator
      ensures Valid() && (old(Covered()) ==> Covered())
      ensures coordinator.View() == Step(old(coordinator.View()), Coordinator.RegisterTab(tab), coordinator.compare)
      ensures tab.id in workers && fresh(workers[tab.id]) && workers[tab.id].View() == NEW_WORKER
      ensures workers == old(workers)[tab.id := workers[tab.id]]
      ensures Machine() == HarnessStep(old(Machine()), Coordinate(Coordinator.RegisterTab(tab)), coordinator.compare)
    {
      PutWellFormed(coordinator.tabs, Normalize(tab));
      PutKeys(coordinator.tabs, tab.id, Normalize(tab));
      coordinator.DoRegisterTab(tab);
      ElectKeepsTabs(old(coordinator.View()).(tabs := Put(old(coordinator.tabs), tab.id, Normalize(tab))),
                     coordinator.compare);
      var worker := new FakeTabWorker(tab.id);
      workers := workers[tab.id := worker];
    }

    /** The boot up to its await: it opens the worker of the active tab, if there is one. */
    method BeginBoot() returns (begun: bool)
      requires Valid()
      modifies workers.Values
      ensures Valid() && workers == old(workers) && (old(Covered()) ==> Covered())
      ensures Machine() == HarnessStep(old(Machine()), BootBegins, coordinator.compare)
      ensures begun <==> Truthy(coordinator.activeTabId) && coordinator.activeTabId.value in workers
      ensures OthersUnchanged(if begun then coordinator.activeTabId else None)
    {
      var snapshot := coordinator.Snapshot();
      var active := snapshot.active;
      if !Truthy(active) || active.value !in workers {
        return false;
      }
      workers[active.value].Boot();
      return true;
    }

    /** The boot after its await: it marks whichever tab is the active one by then. */
    method FinishBoot()
      requires Valid()
      modifies coordinator
      ensures Valid() && (old(Covered()) ==> Covered())
      ensures Machine() == HarnessStep(old(Machine()), BootEnds, coordinator.compare)
    {
      MarkKeepsKeys(coordinator.View(), coordinator.compare);
      coordinator.DoMarkActiveOwnerReady();
    }

    /** A boot with nothing happening in between. */
    method BootActiveOwner()
      requires Valid()
      modifies coordinator, workers.Values
      ensures Valid() && (old(Covered()) ==> Covered()) && workers == old(workers)
      ensures var begun := HarnessStep(old(Machine()), BootBegins, coordinator.compare);
              Machine() == if begun == old(Machine()) then begun else HarnessStep(begun, BootEnds, coordinator.compare)
    {
      var begun := BeginBoot();
      if begun {
        FinishBoot();
      }
    }

    /** No worker but the one named has changed. */
    twostate predicate OthersUnchanged(tabId: Option<Text>)
      reads this, workers.Values
    {
      forall id :: id in workers && id in old(workers) && workers[id] == old(workers)[id] && tabId != Some(id)
        ==> workers[id].View() == old(workers[id].View())
    }

    method CloseTab(tabId: Text)
      requires Valid()
      modifies coordinator
      ensures Valid() && (old(Covered()) ==> Covered())
      ensures coordinator.View() == Step(old(coordinator.View()), Coordinator.CloseTab(tabId), coordinator.compare)
    {
      WithoutWellFormed(coordinator.tabs, tabId);
      ghost var before := coordinator.View();
      coordinator.DoCloseTab(tabId);
      CloseKeepsKeys(before, tabId, coordinator.compare);
    }

    /** A request runs on the active owner's worker and nowhere else; with every tab registered through
        the harness that worker is never missing. */
    method Request(requestingTabId: Text, request: LocalRequest) returns (response: LocalResponse)
      requires Valid()
      modifies this`requestLog, workers.Values
      ensures Valid() && workers == old(workers) && coordinator.View() == old(coordinator.View())
      ensures match RouteOf(coordinator.View())
              case Server(reason) =>
                && response == ToServer(reason) && OthersUnchanged(None)
                && requestLog == old(requestLog) + [LogEntry(requestingTabId, None, request.operation)]
              case ActiveWorker(owner) =>
                if owner !in workers then
                  response == ActiveWorkerMissing && OthersUnchanged(None) && requestLog == old(requestLog)
                else
                  && OthersUnchanged(Some(owner))
                  && workers[owner].View() == Executed(old(workers[owner].View()), request)
                  && requestLog == old(requestLog) + [LogEntry(requestingTabId, Some(owner), request.operation)]
                  && workers[owner].state == request.execute(old(workers[owner].state)).state
                  && var value := request.execute(old(workers[owner].state)).value;
                     && (value.Some? ==> response == Served(owner, value.value))
                     && (value.None? ==> response == LocalDbError)
      ensures old(Covered()) ==> response != ActiveWorkerMissing && Covered()
    {
      var route := coordinator.RouteRequest();
      match route {
        case Server(reason) =>
          requestLog := requestLog + [LogEntry(requestingTabId, None, request.operation)];
          return ToServer(reason);
        case ActiveWorker(owner) =>
          if owner !in workers {
            return ActiveWorkerMissing;
          }
          requestLog := requestLog + [LogEntry(requestingTabId, Some(owner), request.operation)];
          var value := workers[owner].Execute(request);
          return ResponseOf(owner, value);
      }
    }
  }

  /** A thrown error becomes a fallback to the server. */
  function ResponseOf(owner: Text, value: Option<Json.Value>): LocalResponse {
    match value case Some(v) => Served(owner, v) case None => LocalDbError
  }

  lemma MarkKeepsKeys(m: Model, leq: (Text, Text) -> bool)
    requires WellFormed(m.tabs)
    ensures WellFormed(Step(m, MarkActiveOwnerReady, leq).tabs)
    ensures KeySet(Step(m, MarkActiveOwnerReady, leq).tabs) <= KeySet(m.tabs)
  {
    if Truthy(m.active) && !m.status.UnsafeFallbackDisabled? {
      var id := m.active.value;
      ElectKeepsTabs(Update(m, id, READY_PATCH, leq), leq);
      if Find(m.tabs, id).Some? {
        var t := Patched(Find(m.tabs, id).value, READY_PATCH);
        UpdateTabs(m, id, READY_PATCH, leq);
        FindMember(m.tabs, Entry(id, Find(m.tabs, id).value));
        PutWellFormed(m.tabs, t);
        PutKeys(m.tabs, id, t);
      }
    }
  }

  lemma CloseKeepsKeys(m: Model, id: Text, leq: (Text, Text) -> bool)
    requires WellFormed(m.tabs)
    ensures KeySet(Close(m, id, leq).tabs) <= KeySet(m.tabs)
    ensures Close(m, id, leq).tabs == Without(m.tabs, {id})
  {
    forall e | e in Without(m.tabs, {id}) ensures e in m.tabs {
      WithoutMember(m.tabs, {id}, e);
    }
  }
}
