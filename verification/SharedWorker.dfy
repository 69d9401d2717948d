/** `SharedWorkerCacheCoordinator` (packages/client/src/browser-cache-shared-worker.ts), event by event. */
module SharedWorker {
  import opened Texts
  import opened Options
  import opened OrderedMaps
  import opened Coordinator
  import opened Sorting

  // The worker with an owner executor: messages from tabs, requests that run outside the worker, and the health
  // latch. Handling a request stops at each `await`; what happens there is a separate event.

  type Port = nat

  datatype Health = Healthy | Initializing | Unavailable | CorruptHealth

  datatype Inbound =
    | Register(tabId: Text)
    | TabUpdate(tabId: Text, patch: Patch)
    | OwnerReadyMessage(tabId: Text)
    | OwnerLostMessage(tabId: Text)
    | HealthQuery(id: Text, tabId: Text)
    | Request(id: Text, tabId: Text)
    | UnknownType(sender: Option<Text>)
    | NotAMessage

  datatype Answer =
    | Served(owner: Text, value: nat)
    | NotHealthy
    | NotRouted(reason: Reason)
    | NoExecutor
    | ExecutionFailed(error: nat)

  /** A message posted to a port; `request` is the arrival number of the request it answers. */
  datatype Outbound =
    | Response(port: Port, id: Text, request: nat, answer: Answer)
    | HealthResult(port: Port, id: Text, health: Health, model: Model)

  datatype Phase = Executing | Resetting(error: nat)

  datatype Pending = Pending(port: Port, id: Text, owner: Text, phase: Phase)

  datatype Arrival = Arrival(port: Port, id: Text)

  datatype Event =
    | Message(port: Port, body: Inbound)
    | SetDBHealth(health: Health)
    | SetOwnerExecutor(present: bool)
    | ExecuteResolves(request: nat, value: nat)
    | ExecuteRejects(request: nat, error: nat)
    | ResetResolves(request: nat)
    | ResetRejects(request: nat)

  datatype State = State(
    model: Model,
    ports: map<Text, Port>,
    health: Health,
    executor: bool,
    arrivals: seq<Arrival>,
    pending: map<nat, Pending>,
    lost: set<nat>,
    outbox: seq<Outbound>)

  const STARTED := State(Coordinator.FRESH, map[], Initializing, false, [], map[], {}, [])

  type IdLeq = (Text, Text) -> bool

  const NO_TAB := TabInfo([], false, false, Some(false), Some(false))

  function Sender(body: Inbound): Option<Text> {
    match body
    case UnknownType(sender) => sender
    case NotAMessage => None
    case _ => Some(body.tabId)
  }

  function WithPort(s: State, port: Port, body: Inbound): State {
    match Sender(body)
    case Some(tabId) => s.(ports := s.ports[tabId := port])
    case None => s
  }

  function Coordinated(s: State, call: Call, leq: IdLeq): State {
    s.(model := Coordinator.Step(s.model, call, leq))
  }

  function Reply(s: State, port: Port, id: Text, request: nat, answer: Answer): State {
    s.(outbox := s.outbox + [Response(port, id, request, answer)])
  }

  /** The answer a request gets on arrival, if it gets one. */
  function Refusal(s: State): Option<Answer> {
    if s.health != Healthy then Some(NotHealthy)
    else
      match RouteOf(s.model)
      case Server(reason) => Some(NotRouted(reason))
      case ActiveWorker(_) => if !s.executor then Some(NoExecutor) else None
  }

  /** `handleRequest` up to the call of the executor. */
  function Arrive(s: State, port: Port, id: Text): State {
    var n := |s.arrivals|;
    var arrived := s.(arrivals := s.arrivals + [Arrival(port, id)]);
    match Refusal(s)
    case Some(answer) => Reply(arrived, port, id, n, answer)
    case None => arrived.(pending := s.pending[n := Pending(port, id, RouteOf(s.model).tabId, Executing)])
  }

  function HandleBody(s: State, port: Port, body: Inbound, leq: IdLeq): State {
    match body
    case Register(tabId) =>
      var next := Coordinated(s, RegisterTab(NO_TAB.(id := tabId)), leq);
      next.(outbox := next.outbox + [HealthResult(port, [], next.health, next.model)])
    case TabUpdate(tabId, patch) => Coordinated(s, UpdateTab(tabId, patch), leq)
    case OwnerReadyMessage(_) => Coordinated(s, MarkActiveOwnerReady, leq).(health := Healthy)
    case OwnerLostMessage(tabId) => Coordinated(s, CloseTab(tabId), leq).(health := Initializing)
    case HealthQuery(id, _) => s.(outbox := s.outbox + [HealthResult(port, id, s.health, s.model)])
    case Request(id, _) => Arrive(s, port, id)
    case _ => s
  }

  predicate InPhase(s: State, n: nat, executing: bool) {
    n in s.pending && s.pending[n].phase.Executing? == executing
  }

  /** The pending request `n` gets its answer. */
  function Settle(s: State, n: nat, answer: Answer): State
    requires n in s.pending
  {
    Reply(s, s.pending[n].port, s.pending[n].id, n, answer).(pending := s.pending - {n})
  }

  function Advance(s: State, event: Event, leq: IdLeq): State {
    match event
    case Message(port, body) => HandleBody(WithPort(s, port, body), port, body, leq)
    case SetDBHealth(health) => s.(health := health)
    case SetOwnerExecutor(present) => s.(executor := present)
    case ExecuteResolves(n, value) =>
      if InPhase(s, n, true) then Settle(s, n, Served(s.pending[n].owner, value)) else s
    case ExecuteRejects(n, error) =>
      if InPhase(s, n, true) then
        s.(health := CorruptHealth, pending := s.pending[n := s.pending[n].(phase := Resetting(error))])
      else s
    case ResetResolves(n) =>
      if InPhase(s, n, false) then Settle(s, n, ExecutionFailed(s.pending[n].phase.error)) else s
    case ResetRejects(n) =>
      if InPhase(s, n, false) then s.(pending := s.pending - {n}, lost := s.lost + {n}) else s
  }

  // ---------------------------------------------------------------- the class

  class SharedWorkerCacheCoordinator {
    const coordinator: CacheCoordinator
    var ports: map<Text, Port>
    var dbHealth: Health
    var hasExecutor: bool
    ghost var arrivals: seq<Arrival>
    ghost var lost: set<nat>
    var nextRequest: nat
    var inFlight: map<nat, Pending>
    var outbox: seq<Outbound>

    ghost function View(): State
      reads this, coordinator
    {
      State(coordinator.View(), ports, dbHealth, hasExecutor, arrivals, inFlight, lost, outbox)
    }

    ghost predicate Valid()
      reads this
    {
      nextRequest == |arrivals|
    }

    constructor (localeCompare: IdLeq)
      ensures Valid() && View() == STARTED && fresh(coordinator) && coordinator.compare == localeCompare
    {
      coordinator := new CacheCoordinator(localeCompare);
      ports, dbHealth, hasExecutor := map[], Initializing, false;
      nextRequest, inFlight, outbox := 0, map[], [];
      arrivals, lost := [], {};
    }

    method Handle(port: Port, body: Inbound)
      requires Valid()
      modifies this, coordinator
      ensures Valid()
      ensures View() == Advance(old(View()), Message(port, body), coordinator.compare)
    {
      match Sender(body) {
        case Some(tabId) => ports := ports[tabId := port];
        case None =>
      }
      match body {
        case Register(tabId) =>
          coordinator.DoRegisterTab(TabInfo(tabId, false, false, Some(false), Some(false)));
          ReplyHealth(port, []);
        case TabUpdate(tabId, patch) => coordinator.DoUpdateTab(tabId, patch);
        case OwnerReadyMessage(_) =>
          coordinator.DoMarkActiveOwnerReady();
          dbHealth := Healthy;
        case OwnerLostMessage(tabId) =>
          coordinator.DoCloseTab(tabId);
          dbHealth := Initializing;
        case HealthQuery(id, _) => ReplyHealth(port, id);
        case Request(id, _) => HandleRequest(port, id);
        case _ =>
      }
    }

    method ReplyHealth(port: Port, id: Text)
      modifies this`outbox
      ensures outbox == old(outbox) + [HealthResult(port, id, dbHealth, coordinator.View())]
    {
      var model := coordinator.Snapshot();
      outbox := outbox + [HealthResult(port, id, dbHealth, model)];
    }

    method HandleRequest(port: Port, id: Text)
      requires Valid()
      modifies this`outbox, this`inFlight, this`nextRequest, this`arrivals
      ensures Valid()
      ensures View() == Arrive(old(View()), port, id)
    {
      var n := nextRequest;
      nextRequest := n + 1;
      arrivals := arrivals + [Arrival(port, id)];
      if dbHealth != Healthy {
        outbox := outbox + [Response(port, id, n, NotHealthy)];
        return;
      }
      var route := coordinator.RouteRequest();
      match route {
        case Server(reason) => outbox := outbox + [Response(port, id, n, NotRouted(reason))];
        case ActiveWorker(tabId) =>
          if !hasExecutor {
            outbox := outbox + [Response(port, id, n, NoExecutor)];
          } else {
            inFlight := inFlight[n := Pending(port, id, tabId, Executing)];
          }
      }
    }

    method AfterExecute(n: nat, event: Event)
      requires Valid() && n in inFlight && inFlight[n].phase.Executing?
      requires (event.ExecuteResolves? || event.ExecuteRejects?) && event.request == n
      modifies this`outbox, this`inFlight, this`dbHealth
      ensures Valid()
      ensures View() == Advance(old(View()), event, coordinator.compare)
    {
      var p := inFlight[n];
      match event {
        case ExecuteResolves(_, value) =>
          outbox := outbox + [Response(p.port, p.id, n, Served(p.owner, value))];
          inFlight := inFlight - {n};
        case ExecuteRejects(_, error) =>
          dbHealth := CorruptHealth;
          inFlight := inFlight[n := p.(phase := Resetting(error))];
      }
    }

    method AfterReset(n: nat, event: Event)
      requires Valid() && n in inFlight && inFlight[n].phase.Resetting?
      requires (event.ResetResolves? || event.ResetRejects?) && event.request == n
      modifies this`outbox, this`inFlight, this`lost
      ensures Valid()
      ensures View() == Advance(old(View()), event, coordinator.compare)
    {
      var p := inFlight[n];
      if event.ResetResolves? {
        outbox := outbox + [Response(p.port, p.id, n, ExecutionFailed(p.phase.error))];
      } else {
        lost := lost + {n};
      }
      inFlight := inFlight - {n};
    }
  }

  // ---------------------------------------------------------------- runs

  ghost function Run(events: seq<Event>, leq: IdLeq): State {
    if events == [] then STARTED else Advance(Run(events[..|events| - 1], leq), events[|events| - 1], leq)
  }

  function ResponsesTo(outbox: seq<Outbound>, n: nat): nat {
    if outbox == [] then 0
    else
      var last := outbox[|outbox| - 1];
      (if last.Response? && last.request == n then 1 else 0) + ResponsesTo(outbox[..|outbox| - 1], n)
  }

  lemma ResponsesAfter(outbox: seq<Outbound>, m: Outbound, n: nat)
    ensures ResponsesTo(outbox + [m], n)
            == ResponsesTo(outbox, n) + if m.Response? && m.request == n then 1 else 0
  {
    assert (outbox + [m])[..|outbox|] == outbox;
  }

  /** Request `n` is accounted for: it has one response, unless it is in flight or its reset rejected. */
  ghost predicate Accounted(s: State, n: nat) {
    ResponsesTo(s.outbox, n)
    == if n < |s.arrivals| && n !in s.pending && n !in s.lost then 1 else 0
  }

  /** Every response and every request in flight carries the port and the id its request came with. */
  ghost predicate Addressed(s: State) {
    && (forall m :: m in s.outbox && m.Response? ==>
          m.request < |s.arrivals| && Arrival(m.port, m.id) == s.arrivals[m.request])
    && (forall n :: n in s.pending ==>
          n < |s.arrivals| && Arrival(s.pending[n].port, s.pending[n].id) == s.arrivals[n])
    && (forall n :: n in s.lost ==> n < |s.arrivals| && n !in s.pending)
  }

  lemma ReplyAddressed(s: State, n: nat, answer: Answer)
    requires Addressed(s) && n in s.pending
    ensures Addressed(Settle(s, n, answer))
  {
  }

  lemma ArriveAddressed(s: State, port: Port, id: Text)
    requires Addressed(s)
    ensures Addressed(Arrive(s, port, id))
  {
  }

  lemma MessageAddressed(s: State, port: Port, body: Inbound, leq: IdLeq)
    requires Addressed(s)
    ensures Addressed(HandleBody(WithPort(s, port, body), port, body, leq))
  {
    if body.Request? {
      ArriveAddressed(WithPort(s, port, body), port, body.id);
    }
  }

  lemma StepAddressed(s: State, event: Event, leq: IdLeq)
    requires Addressed(s)
    ensures Addressed(Advance(s, event, leq))
  {
    match event
    case Message(port, body) => MessageAddressed(s, port, body, leq);
    case ExecuteResolves(n, value) => if InPhase(s, n, true) { ReplyAddressed(s, n, Served(s.pending[n].owner, value)); }
    case ResetResolves(n) =>
      if InPhase(s, n, false) { ReplyAddressed(s, n, ExecutionFailed(s.pending[n].phase.error)); }
    case _ =>
  }

  /** A message other than a request answers no request. */
  lemma OtherMessages(s: State, port: Port, body: Inbound, leq: IdLeq, n: nat)
    requires !body.Request?
    ensures var s' := HandleBody(s, port, body, leq);
            && s'.arrivals == s.arrivals && s'.pending == s.pending && s'.lost == s.lost
            && ResponsesTo(s'.outbox, n) == ResponsesTo(s.outbox, n)
  {
    match body
    case Register(tabId) =>
      var next := Coordinated(s, RegisterTab(NO_TAB.(id := tabId)), leq);
      ResponsesAfter(s.outbox, HealthResult(port, [], next.health, next.model), n);
    case HealthQuery(id, _) => ResponsesAfter(s.outbox, HealthResult(port, id, s.health, s.model), n);
    case _ =>
  }

  lemma ArrivalAccounted(s: State, port: Port, id: Text, n: nat)
    requires Addressed(s) && Accounted(s, n)
    ensures Accounted(Arrive(s, port, id), n)
  {
  }

  lemma SettleAccounted(s: State, k: nat, answer: Answer, n: nat)
    requires Addressed(s) && Accounted(s, n) && k in s.pending
    ensures Accounted(Settle(s, k, answer), n)
  {
  }

  lemma StepAccounted(s: State, event: Event, leq: IdLeq, n: nat)
    requires Addressed(s) && Accounted(s, n)
    ensures Accounted(Advance(s, event, leq), n)
  {
    match event
    case Message(port, body) =>
      if body.Request? {
        ArrivalAccounted(WithPort(s, port, body), port, body.id, n);
      } else {
        OtherMessages(WithPort(s, port, body), port, body, leq, n);
      }
    case ExecuteResolves(k, value) => if InPhase(s, k, true) { SettleAccounted(s, k, Served(s.pending[k].owner, value), n); }
    case ResetResolves(k) =>
      if InPhase(s, k, false) { SettleAccounted(s, k, ExecutionFailed(s.pending[k].phase.error), n); }
    case _ =>
  }

  lemma StepAtRest(s: State, event: Event, leq: IdLeq)
    requires AtRest(s.model) && IdOrder(leq)
    ensures AtRest(Advance(s, event, leq).model)
  {
    if event.Message? {
      match event.body
      case Register(tabId) => StepRests(s.model, RegisterTab(NO_TAB.(id := tabId)), leq);
      case TabUpdate(tabId, patch) => StepRests(s.model, UpdateTab(tabId, patch), leq);
      case OwnerReadyMessage(_) => StepRests(s.model, MarkActiveOwnerReady, leq);
      case OwnerLostMessage(tabId) => StepRests(s.model, CloseTab(tabId), leq);
      case _ =>
    }
  }

  /** In every run each request gets exactly one response, with its own id and on its own port, once its
      execution (and, after a failure, its reset) is over; a request whose reset rejects gets none. */
  lemma {:induction false} RunResponds(events: seq<Event>, leq: IdLeq)
    requires IdOrder(leq)
    ensures AtRest(Run(events, leq).model) && Addressed(Run(events, leq))
    ensures forall n: nat :: Accounted(Run(events, leq), n)
  {
    if events != [] {
      var n := |events| - 1;
      var s := Run(events[..n], leq);
      RunResponds(events[..n], leq);
      StepAtRest(s, events[n], leq);
      StepAddressed(s, events[n], leq);
      forall k: nat ensures Accounted(Run(events, leq), k) {
        StepAccounted(s, events[n], leq, k);
      }
    } else {
      RunRests([], leq);
    }
  }

  /** Event `i` hands a request to the executor. */
  ghost predicate Admits(events: seq<Event>, i: nat, leq: IdLeq)
    requires i < |events|
  {
    var s := Run(events[..i], leq);
    exists n :: n !in s.pending && n in Advance(s, events[i], leq).pending
  }

  /** A request reaches the executor exactly when, on its arrival, the database is healthy, an executor is
      set, and the coordinator names a registered tab that holds its lock and is ready; the request is then
      filed under that tab. */
  lemma AdmittedExactly(events: seq<Event>, i: nat, leq: IdLeq)
    requires IdOrder(leq) && i < |events|
    ensures var s := Run(events[..i], leq);
            Admits(events, i, leq)
            <==> events[i].Message? && events[i].body.Request? && s.health == Healthy && s.executor
                 && s.model.status.ActiveOwnerReady? && s.model.active != Some([])
    ensures var s := Run(events[..i], leq);
            forall n :: n !in s.pending && n in Advance(s, events[i], leq).pending ==>
              var owner := Advance(s, events[i], leq).pending[n].owner;
              && s.model.active == Some(owner) && LockHolder(s.model.tabs, owner)
              && OwnerReady(Find(s.model.tabs, owner))
  {
    var s := Run(events[..i], leq);
    RunResponds(events[..i], leq);
    RouteExactly(s.model);
    var n := |s.arrivals|;
    assert n !in s.pending;
    if events[i].Message? && events[i].body.Request? && Refusal(WithPort(s, events[i].port, events[i].body)).None? {
      assert n in Advance(s, events[i], leq).pending;
    }
  }

  /** What restores health. */
  predicate Heals(event: Event) {
    (event.Message? && event.body.OwnerReadyMessage?) || event == SetDBHealth(Healthy)
  }

  lemma {:induction false} StaysUnhealthy(events: seq<Event>, i: nat, j: nat, leq: IdLeq)
    requires i <= j <= |events| && Run(events[..i], leq).health != Healthy
    requires forall k :: i <= k < j ==> !Heals(events[k])
    ensures Run(events[..j], leq).health != Healthy
    decreases j
  {
    if i < j {
      StaysUnhealthy(events, i, j - 1, leq);
      assert events[..j][..j - 1] == events[..j - 1] && events[..j][j - 1] == events[j - 1];
    }
  }

  /** After an execution fails, no request reaches the executor until an owner reports ready or the host
      declares the database healthy. */
  lemma FailureLatches(events: seq<Event>, i: nat, j: nat, leq: IdLeq)
    requires IdOrder(leq) && i < j < |events|
    requires events[i].ExecuteRejects? && InPhase(Run(events[..i], leq), events[i].request, true)
    requires forall k :: i < k < j ==> !Heals(events[k])
    ensures !Admits(events, j, leq)
  {
    assert events[..i + 1][..i] == events[..i] && events[..i + 1][i] == events[i];
    StaysUnhealthy(events, i + 1, j, leq);
    AdmittedExactly(events, j, leq);
  }

  /** Any tab may report ready. The report makes the database healthy and marks whichever tab is the active one: requests
      then go to the sender exactly when it is that tab. Without an owner nobody is marked. */
  lemma ReadyIsCreditedToTheActiveTab(s: State, port: Port, sender: Text, leq: IdLeq)
    requires AtRest(s.model) && IdOrder(leq)
    ensures var s' := Advance(s, Message(port, OwnerReadyMessage(sender)), leq);
            && s'.health == Healthy
            && (Truthy(s.model.active) ==> RouteOf(s'.model) == ActiveWorker(s.model.active.value))
            && (!Truthy(s.model.active) ==> s'.model == s.model && RouteOf(s'.model).Server?)
            && (RouteOf(s'.model) == ActiveWorker(sender) <==> sender != [] && s.model.active == Some(sender))
  {
    if Truthy(s.model.active) {
      MarksActive(s.model, leq);
    }
  }

  // ---------------------------------------------------------------- two runs

  const LOCK_PATCH := Patch(Value(true), Unnamed, Unnamed, Unnamed)

  /** A tab registers and gets its lock. */
  function TabOpens(port: Port, tab: Text): seq<Event> {
    [Message(port, Register(tab)), Message(port, TabUpdate(tab, LOCK_PATCH))]
  }

  lemma RunMore(events: seq<Event>, event: Event, leq: IdLeq)
    ensures Run(events + [event], leq) == Advance(Run(events, leq), event, leq)
  {
    assert (events + [event])[..|events|] == events;
  }

  lemma FirstTabOpens(tab: Text, leq: IdLeq)
    requires IdOrder(leq)
    ensures var s := Run(TabOpens(0, tab), leq);
            s.model.active == Some(tab) && s.pending == map[] && s.arrivals == []
            && ResponsesTo(s.outbox, 0) == 0
  {
    var first, second := Message(0, Register(tab)), Message(0, TabUpdate(tab, LOCK_PATCH));
    assert TabOpens(0, tab) == ([] + [first]) + [second];
    RunMore([], first, leq);
    RunMore([] + [first], second, leq);
    var off, on := Tab(tab, false, false, false, false), Tab(tab, true, false, false, false);
    var s1 := Run([] + [first], leq);
    var tabs: Tabs := [Entry(tab, off)];
    assert tabs[1..] == [];
    assert Holders(tabs) == [];
    assert s1.model == Model(tabs, None, Electing);
    var locked: Tabs := [Entry(tab, on)];
    assert locked[1..] == [];
    assert Holders(locked) == [on];
    SortOne(on, ById(leq));
    assert Run(TabOpens(0, tab), leq).model.tabs == locked;
    RunResponds(TabOpens(0, tab), leq);
    assert Accounted(Run(TabOpens(0, tab), leq), 0);
  }

  /** A tab that is not the owner reports ready, and requests go to the owner, which never did. */
  lemma NotTheOwnerReportsReady(owner: Text, sender: Text, leq: IdLeq)
    requires IdOrder(leq) && owner != [] && sender != owner
    ensures var s := Run(TabOpens(0, owner) + [Message(1, OwnerReadyMessage(sender))], leq);
            s.health == Healthy && RouteOf(s.model) == ActiveWorker(owner)
  {
    FirstTabOpens(owner, leq);
    RunResponds(TabOpens(0, owner), leq);
    RunMore(TabOpens(0, owner), Message(1, OwnerReadyMessage(sender)), leq);
    ReadyIsCreditedToTheActiveTab(WithPort(Run(TabOpens(0, owner), leq), 1, OwnerReadyMessage(sender)), 1, sender, leq);
  }

  /** A tab opens, is the owner and reports ready, and the executor is set. */
  function TabServes(tab: Text): seq<Event> {
    TabOpens(0, tab) + [Message(0, OwnerReadyMessage(tab))] + [SetOwnerExecutor(true)]
  }

  lemma TabIsServing(tab: Text, leq: IdLeq)
    requires IdOrder(leq) && tab != []
    ensures var s := Run(TabServes(tab), leq);
            && s.health == Healthy && s.executor && RouteOf(s.model).ActiveWorker?
            && s.arrivals == [] && s.pending == map[] && ResponsesTo(s.outbox, 0) == 0
  {
    var e2 := TabOpens(0, tab);
    var e3 := e2 + [Message(0, OwnerReadyMessage(tab))];
    FirstTabOpens(tab, leq);
    RunResponds(e2, leq);
    RunMore(e2, Message(0, OwnerReadyMessage(tab)), leq);
    ReadyIsCreditedToTheActiveTab(WithPort(Run(e2, leq), 0, OwnerReadyMessage(tab)), 0, tab, leq);
    RunMore(e3, SetOwnerExecutor(true), leq);
  }

  /** A request whose execution and reset both fail is over and has no response. */
  lemma LostRequestHasNoResponse(tab: Text, id: Text, leq: IdLeq)
    requires IdOrder(leq) && tab != []
    ensures var s := Run(TabServes(tab) + [Message(0, Request(id, tab))] + [ExecuteRejects(0, 7)] + [ResetRejects(0)], leq);
            |s.arrivals| == 1 && s.pending == map[] && ResponsesTo(s.outbox, 0) == 0
  {
    var e4 := TabServes(tab);
    var e5 := e4 + [Message(0, Request(id, tab))];
    TabIsServing(tab, leq);
    RunMore(e4, Message(0, Request(id, tab)), leq);
    RequestGetsLost(Run(e4, leq), id, tab, leq);
    RunMore(e5, ExecuteRejects(0, 7), leq);
    RunMore(e5 + [ExecuteRejects(0, 7)], ResetRejects(0), leq);
  }

  lemma RequestGetsLost(s: State, id: Text, tab: Text, leq: IdLeq)
    requires s.health == Healthy && s.executor && RouteOf(s.model).ActiveWorker?
    requires s.arrivals == [] && s.pending == map[] && ResponsesTo(s.outbox, 0) == 0
    ensures var s5 := Advance(s, Message(0, Request(id, tab)), leq);
            var s6 := Advance(s5, ExecuteRejects(0, 7), leq);
            var s7 := Advance(s6, ResetRejects(0), leq);
            |s7.arrivals| == 1 && s7.pending == map[] && ResponsesTo(s7.outbox, 0) == 0
  {
    var s5 := Advance(s, Message(0, Request(id, tab)), leq);
    assert s5.pending == map[0 := Pending(0, id, RouteOf(s.model).tabId, Executing)];
    var s6 := Advance(s5, ExecuteRejects(0, 7), leq);
    assert s6.pending == map[0 := Pending(0, id, RouteOf(s.model).tabId, Resetting(7))];
  }
}
