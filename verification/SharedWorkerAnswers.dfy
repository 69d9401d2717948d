/** Why each response of the shared worker (packages/client/src/browser-cache-shared-worker.ts) says what it says. */
module SharedWorkerAnswers {
  import opened Texts
  import opened Options
  import opened OrderedMaps
  import opened Coordinator
  import opened CoordinatorCalls
  import opened SharedWorker

  /** Event `i` brings request `n` from this port under this id. */
  ghost predicate ArrivesAt(events: seq<Event>, i: nat, port: Port, id: Text, n: nat, leq: IdLeq) {
    && i < |events| && events[i].Message? && events[i].port == port
    && events[i].body.Request? && events[i].body.id == id
    && |SharedWorker.Run(events[..i], leq).arrivals| == n
  }

  /** What arrives then goes to the executor, on behalf of `owner`. */
  ghost predicate Forwarded(events: seq<Event>, i: nat, owner: Text, leq: IdLeq)
    requires i < |events|
  {
    var s := SharedWorker.Run(events[..i], leq);
    s.health == Healthy && RouteOf(s.model) == ActiveWorker(owner) && s.executor
  }

  ghost predicate Later(events: seq<Event>, i: nat, event: Event) {
    exists j :: i < j < |events| && events[j] == event
  }

  /** The first event and the second, in this order, after `i`. */
  ghost predicate LaterThen(events: seq<Event>, i: nat, first: Event, second: Event) {
    exists j, k :: i < j < k < |events| && events[j] == first && events[k] == second
  }

  /** Why request `n`, which arrived with event `i`, has this answer. */
  ghost predicate AnsweredBy(events: seq<Event>, i: nat, n: nat, answer: Answer, leq: IdLeq)
    requires i < |events|
  {
    var s := SharedWorker.Run(events[..i], leq);
    match answer
    case NotHealthy => s.health != Healthy
    case NotRouted(reason) => s.health == Healthy && RouteOf(s.model) == Server(reason)
    case NoExecutor => s.health == Healthy && RouteOf(s.model).ActiveWorker? && !s.executor
    case Served(owner, value) => Forwarded(events, i, owner, leq) && Later(events, i, ExecuteResolves(n, value))
    case ExecutionFailed(error) =>
      && (exists owner :: Forwarded(events, i, owner, leq))
      && LaterThen(events, i, ExecuteRejects(n, error), ResetResolves(n))
  }

  ghost predicate ResponseExplained(events: seq<Event>, m: Outbound, leq: IdLeq)
    requires m.Response?
  {
    exists i: nat ::
      ArrivesAt(events, i, m.port, m.id, m.request, leq) && AnsweredBy(events, i, m.request, m.answer, leq)
  }

  ghost predicate PendingAt(events: seq<Event>, i: nat, n: nat, p: Pending, leq: IdLeq) {
    && ArrivesAt(events, i, p.port, p.id, n, leq) && Forwarded(events, i, p.owner, leq)
    && (p.phase.Resetting? ==> Later(events, i, ExecuteRejects(n, p.phase.error)))
  }

  ghost predicate PendingExplained(events: seq<Event>, n: nat, p: Pending, leq: IdLeq) {
    exists i: nat :: PendingAt(events, i, n, p, leq)
  }

  ghost predicate Explained(events: seq<Event>, leq: IdLeq) {
    var s := SharedWorker.Run(events, leq);
    && (forall m :: m in s.outbox && m.Response? ==> ResponseExplained(events, m, leq))
    && (forall n :: n in s.pending ==> PendingExplained(events, n, s.pending[n], leq))
  }

  // ---------------------------------------------------------------- one more event

  lemma LaterStill(events: seq<Event>, next: Event, i: nat, event: Event)
    requires Later(events, i, event)
    ensures Later(events + [next], i, event)
  {
    var j :| i < j < |events| && events[j] == event;
    assert (events + [next])[j] == event;
  }

  lemma LaterThenStill(events: seq<Event>, next: Event, i: nat, first: Event, second: Event)
    requires LaterThen(events, i, first, second)
    ensures LaterThen(events + [next], i, first, second)
  {
    var j, k :| i < j < k < |events| && events[j] == first && events[k] == second;
    assert (events + [next])[j] == first && (events + [next])[k] == second;
  }

  lemma ArrivesStill(events: seq<Event>, next: Event, i: nat, port: Port, id: Text, n: nat, leq: IdLeq)
    requires ArrivesAt(events, i, port, id, n, leq)
    ensures ArrivesAt(events + [next], i, port, id, n, leq) && (events + [next])[..i] == events[..i]
  {
    assert (events + [next])[..i] == events[..i];
  }

  lemma AnsweredStill(events: seq<Event>, next: Event, i: nat, n: nat, answer: Answer, leq: IdLeq)
    requires i < |events| && AnsweredBy(events, i, n, answer, leq) && (events + [next])[..i] == events[..i]
    ensures AnsweredBy(events + [next], i, n, answer, leq)
  {
    match answer
    case Served(owner, value) => LaterStill(events, next, i, ExecuteResolves(n, value));
    case ExecutionFailed(error) =>
      LaterThenStill(events, next, i, ExecuteRejects(n, error), ResetResolves(n));
      var owner :| Forwarded(events, i, owner, leq);
      assert Forwarded(events + [next], i, owner, leq);
    case _ =>
  }

  lemma ResponseStill(events: seq<Event>, next: Event, m: Outbound, leq: IdLeq)
    requires m.Response? && ResponseExplained(events, m, leq)
    ensures ResponseExplained(events + [next], m, leq)
  {
    var i: nat :|
      ArrivesAt(events, i, m.port, m.id, m.request, leq) && AnsweredBy(events, i, m.request, m.answer, leq);
    ArrivesStill(events, next, i, m.port, m.id, m.request, leq);
    AnsweredStill(events, next, i, m.request, m.answer, leq);
  }

  lemma PendingStill(events: seq<Event>, next: Event, i: nat, n: nat, p: Pending, leq: IdLeq)
    requires PendingAt(events, i, n, p, leq)
    ensures PendingAt(events + [next], i, n, p, leq)
  {
    ArrivesStill(events, next, i, p.port, p.id, n, leq);
    if p.phase.Resetting? {
      LaterStill(events, next, i, ExecuteRejects(n, p.phase.error));
    }
  }

  /** The responses that an event adds. */
  lemma NewResponse(s: State, event: Event, leq: IdLeq, m: Outbound)
    requires m in Advance(s, event, leq).outbox && m !in s.outbox && m.Response?
    ensures match event
            case Message(port, Request(id, _)) =>
              && m.port == port && m.id == id && m.request == |s.arrivals| && Refusal(s) == Some(m.answer)
            case ExecuteResolves(n, value) =>
              && n in s.pending && s.pending[n].phase.Executing?
              && m == Response(s.pending[n].port, s.pending[n].id, n, Served(s.pending[n].owner, value))
            case ResetResolves(n) =>
              && n in s.pending && s.pending[n].phase.Resetting?
              && m == Response(s.pending[n].port, s.pending[n].id, n, ExecutionFailed(s.pending[n].phase.error))
            case _ => false
  {
  }

  lemma NewResponseExplained(events: seq<Event>, event: Event, leq: IdLeq, m: Outbound)
    requires Explained(events, leq) && m.Response?
    requires m in Advance(SharedWorker.Run(events, leq), event, leq).outbox && m !in SharedWorker.Run(events, leq).outbox
    ensures ResponseExplained(events + [event], m, leq)
  {
    var all, s := events + [event], SharedWorker.Run(events, leq);
    assert all[..|events|] == events;
    NewResponse(s, event, leq, m);
    match event {
      case Message(port, Request(id, _)) =>
        assert ArrivesAt(all, |events|, m.port, m.id, m.request, leq);
        assert AnsweredBy(all, |events|, m.request, m.answer, leq);
      case ExecuteResolves(n, value) =>
        var i: nat :| PendingAt(events, i, n, s.pending[n], leq);
        PendingStill(events, event, i, n, s.pending[n], leq);
        assert all[|events|] == event;
        assert AnsweredBy(all, i, m.request, m.answer, leq);
      case ResetResolves(n) => ResetExplained(events, n, leq, m);
      case _ =>
    }
  }

  lemma ResetExplained(events: seq<Event>, n: nat, leq: IdLeq, m: Outbound)
    requires var p := SharedWorker.Run(events, leq).pending;
             && n in p && p[n].phase.Resetting? && PendingExplained(events, n, p[n], leq)
             && m == Response(p[n].port, p[n].id, n, ExecutionFailed(p[n].phase.error))
    ensures ResponseExplained(events + [ResetResolves(n)], m, leq)
  {
    var all, p := events + [ResetResolves(n)], SharedWorker.Run(events, leq).pending[n];
    var i: nat :| PendingAt(events, i, n, p, leq);
    PendingStill(events, ResetResolves(n), i, n, p, leq);
    var j :| i < j < |events| && events[j] == ExecuteRejects(n, p.phase.error);
    assert all[j] == ExecuteRejects(n, p.phase.error) && all[|events|] == ResetResolves(n);
    assert LaterThen(all, i, ExecuteRejects(n, p.phase.error), ResetResolves(n));
    assert Forwarded(all, i, p.owner, leq);
    assert AnsweredBy(all, i, n, m.answer, leq);
  }

  /** How a request comes to be in flight, and in its phase. */
  lemma NewPending(s: State, event: Event, leq: IdLeq, n: nat)
    requires n in Advance(s, event, leq).pending
    requires !(n in s.pending && s.pending[n] == Advance(s, event, leq).pending[n])
    ensures var p := Advance(s, event, leq).pending[n];
            match event
            case Message(port, Request(id, _)) =>
              && n == |s.arrivals| && Refusal(s) == None
              && p == Pending(port, id, RouteOf(s.model).tabId, Executing)
            case ExecuteRejects(k, error) => n == k && n in s.pending && p == s.pending[n].(phase := Resetting(error))
            case _ => false
  {
  }

  lemma NewPendingExplained(events: seq<Event>, event: Event, leq: IdLeq, n: nat)
    requires Explained(events, leq) && n in Advance(SharedWorker.Run(events, leq), event, leq).pending
    ensures PendingExplained(events + [event], n, Advance(SharedWorker.Run(events, leq), event, leq).pending[n], leq)
  {
    var all, s := events + [event], SharedWorker.Run(events, leq);
    var p := Advance(s, event, leq).pending[n];
    assert all[..|events|] == events;
    if n in s.pending && s.pending[n] == p {
      var i: nat :| PendingAt(events, i, n, p, leq);
      PendingStill(events, event, i, n, p, leq);
    } else {
      NewPending(s, event, leq, n);
      if event.Message? {
        assert PendingAt(all, |events|, n, p, leq);
      } else {
        var i: nat :| PendingAt(events, i, n, s.pending[n], leq);
        ArrivesStill(events, event, i, p.port, p.id, n, leq);
        assert all[|events|] == event;
        assert PendingAt(all, i, n, p, leq);
      }
    }
  }

  /** In every run each response is explained: a refusal by the health, the route or the missing executor when the
      request arrived; a value by its execution, on behalf of the owner that requests went to then; an error by its
      execution and the reset after it. */
  lemma {:induction false} RunExplained(events: seq<Event>, leq: IdLeq)
    ensures Explained(events, leq)
  {
    if events != [] {
      var before, event := events[..|events| - 1], events[|events| - 1];
      var s, s' := SharedWorker.Run(before, leq), SharedWorker.Run(events, leq);
      RunExplained(before, leq);
      assert events == before + [event];
      forall m | m in s'.outbox && m.Response? ensures ResponseExplained(events, m, leq) {
        if m in s.outbox {
          ResponseStill(before, event, m, leq);
        } else {
          NewResponseExplained(before, event, leq, m);
        }
      }
      forall n | n in s'.pending ensures PendingExplained(events, n, s'.pending[n], leq) {
        NewPendingExplained(before, event, leq, n);
      }
    }
  }

  // ---------------------------------------------------------------- what the other messages do

  /** The loss of an owner closes its tab and takes health away until it is restored; no request is answered by it. */
  lemma OwnerLostCloses(s: State, port: Port, tab: Text, leq: IdLeq, id: Text)
    requires AtRest(s.model) && IdOrder(leq)
    ensures var s' := Advance(s, Message(port, OwnerLostMessage(tab)), leq);
            && s'.health == Initializing
            && Find(s'.model.tabs, id) == (if id == tab then None else Find(s.model.tabs, id))
            && RouteOf(s'.model) != ActiveWorker(tab)
            && s'.pending == s.pending && s'.outbox == s.outbox && s'.executor == s.executor
            && tab in s'.ports && s'.ports[tab] == port
  {
    ClosedTab(s.model, tab, leq, id);
    ClosedTab(s.model, tab, leq, tab);
    StepRests(s.model, CloseTab(tab), leq);
    RouteMeaning(Coordinator.Step(s.model, CloseTab(tab), leq), tab);
  }

  /** A tab that registers starts without its lock and without any of its flags, and is told health and tabs. */
  lemma RegisterAnswers(s: State, port: Port, tab: Text, leq: IdLeq)
    requires AtRest(s.model) && IdOrder(leq)
    ensures var s' := Advance(s, Message(port, Register(tab)), leq);
            && Find(s'.model.tabs, tab) == Some(Tab(tab, false, false, false, false))
            && s'.outbox == s.outbox + [HealthResult(port, [], s.health, s'.model)]
            && s'.health == s.health && tab in s'.ports && s'.ports[tab] == port
  {
    RegisteredTab(s.model, TabInfo(tab, false, false, Some(false), Some(false)), leq, tab);
  }

  /** A query for health is answered with it, to the port and under the id it came with, and changes nothing else. */
  lemma HealthAnswers(s: State, port: Port, id: Text, tab: Text, leq: IdLeq)
    ensures var s' := Advance(s, Message(port, HealthQuery(id, tab)), leq);
            s' == s.(outbox := s.outbox + [HealthResult(port, id, s.health, s.model)], ports := s.ports[tab := port])
  {
  }

  /** A failed execution marks the database corrupt and answers nothing until its reset is over; the reset then answers,
      and leaves health as it is by then. Other requests are not touched by either. */
  lemma FailureMarksCorrupt(s: State, n: nat, error: nat, leq: IdLeq, other: nat)
    requires n in s.pending && other != n
    ensures s.pending[n].phase.Executing? ==>
              var s' := Advance(s, ExecuteRejects(n, error), leq);
              && s'.health == CorruptHealth && s'.outbox == s.outbox && s'.model == s.model
              && n in s'.pending && s'.pending[n].phase == Resetting(error)
              && (other in s'.pending <==> other in s.pending)
              && (other in s.pending ==> s'.pending[other] == s.pending[other])
    ensures s.pending[n].phase.Resetting? ==>
              var s' := Advance(s, ResetResolves(n), leq);
              && s'.health == s.health && n !in s'.pending && s'.model == s.model
              && s'.outbox == s.outbox + [Response(s.pending[n].port, s.pending[n].id, n,
                                                   ExecutionFailed(s.pending[n].phase.error))]
              && (other in s.pending ==> other in s'.pending && s'.pending[other] == s.pending[other])
  {
  }
}
