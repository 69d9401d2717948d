/** Boots between other calls of the harness (packages/client/src/browser-cache.ts). */
module BootRuns {
  import opened Texts
  import opened Options
  import opened OrderedMaps
  import opened Sorting
  import opened Coordinator
  import opened BrowserCache

  const NO_HARNESS := HarnessState(FRESH, map[])

  ghost function HarnessRun(events: seq<HarnessEvent>, leq: (Text, Text) -> bool): HarnessState {
    if events == [] then NO_HARNESS
    else HarnessStep(HarnessRun(events[..|events| - 1], leq), events[|events| - 1], leq)
  }

  lemma HarnessStepRests(s: HarnessState, event: HarnessEvent, leq: (Text, Text) -> bool)
    requires AtRest(s.model) && IdOrder(leq)
    ensures AtRest(HarnessStep(s, event, leq).model)
  {
    match event
    case Coordinate(call) => StepRests(s.model, call, leq);
    case BootBegins =>
    case BootEnds => StepRests(s.model, MarkActiveOwnerReady, leq);
  }

  lemma {:induction false} HarnessRests(events: seq<HarnessEvent>, leq: (Text, Text) -> bool)
    requires IdOrder(leq)
    ensures AtRest(HarnessRun(events, leq).model)
  {
    if events == [] {
      RunRests([], leq);
    } else {
      var n := |events| - 1;
      HarnessRests(events[..n], leq);
      HarnessStepRests(HarnessRun(events[..n], leq), events[n], leq);
    }
  }

  /** The event unseats the tab, or gives it a new worker. */
  predicate Disturbs(event: HarnessEvent, tab: Text) {
    event.Coordinate? && (Unseats(event.call, tab) || (event.call.RegisterTab? && event.call.tab.id == tab))
  }

  /** The tab is the owner, and its worker has been opened. */
  predicate OwnsBooted(s: HarnessState, tab: Text) {
    s.model.active == Some(tab) && tab in s.opens && s.opens[tab] > 0
  }

  lemma UndisturbedStep(s: HarnessState, event: HarnessEvent, tab: Text, leq: (Text, Text) -> bool)
    requires AtRest(s.model) && IdOrder(leq) && tab != [] && OwnsBooted(s, tab) && !Disturbs(event, tab)
    ensures OwnsBooted(HarnessStep(s, event, leq), tab)
  {
    match event
    case Coordinate(call) => OwnerStaysOnce(s.model, call, leq);
    case BootBegins =>
    case BootEnds => OwnerStaysOnce(s.model, MarkActiveOwnerReady, leq);
  }

  lemma RunPrefix(events: seq<HarnessEvent>, j: nat, leq: (Text, Text) -> bool)
    requires j < |events|
    ensures HarnessRun(events[..j + 1], leq) == HarnessStep(HarnessRun(events[..j], leq), events[j], leq)
  {
    assert events[..j + 1][..j] == events[..j] && events[..j + 1][j] == events[j];
  }

  lemma {:induction false} StaysBooted(events: seq<HarnessEvent>, i: nat, j: nat, tab: Text, leq: (Text, Text) -> bool)
    requires IdOrder(leq) && tab != [] && i <= j <= |events| && OwnsBooted(HarnessRun(events[..i], leq), tab)
    requires forall k :: i <= k < j ==> !Disturbs(events[k], tab)
    ensures OwnsBooted(HarnessRun(events[..j], leq), tab)
    decreases j
  {
    if i < j {
      StaysBooted(events, i, j - 1, tab, leq);
      RunPrefix(events, j - 1, leq);
      HarnessRests(events[..j - 1], leq);
      UndisturbedStep(HarnessRun(events[..j - 1], leq), events[j - 1], tab, leq);
    }
  }

  /** The end of a boot makes the owner of that moment the target of requests, and no tab when there is none. */
  lemma BootMarksTheOwner(events: seq<HarnessEvent>, leq: (Text, Text) -> bool)
    requires IdOrder(leq)
    ensures var s := HarnessRun(events, leq); var s' := HarnessStep(s, BootEnds, leq);
            if Truthy(s.model.active) then RouteOf(s'.model) == ActiveWorker(s.model.active.value)
            else s' == s && RouteOf(s'.model).Server?
  {
    HarnessRests(events, leq);
    var s := HarnessRun(events, leq);
    if Truthy(s.model.active) {
      MarksActive(s.model, leq);
    }
  }

  /** A boot that begins at `i` and ends after `events`: requests then go to the tab whose worker it opened exactly when
      that tab is still the owner; it is, with that worker, as long as nothing has unseated it or registered it
      again. */
  lemma BootMarksExactly(events: seq<HarnessEvent>, i: nat, leq: (Text, Text) -> bool)
    requires IdOrder(leq) && i < |events| && events[i] == BootBegins
    requires var s := HarnessRun(events[..i], leq); Truthy(s.model.active) && s.model.active.value in s.opens
    ensures var booted := HarnessRun(events[..i], leq).model.active.value;
            var s := HarnessRun(events, leq);
            && (RouteOf(HarnessStep(s, BootEnds, leq).model) == ActiveWorker(booted) <==> s.model.active == Some(booted))
            && ((forall k :: i < k < |events| ==> !Disturbs(events[k], booted)) ==>
                  OwnsBooted(HarnessStep(s, BootEnds, leq), booted))
  {
    var booted := HarnessRun(events[..i], leq).model.active.value;
    var s := HarnessRun(events, leq);
    BootMarksTheOwner(events, leq);
    if forall k :: i < k < |events| ==> !Disturbs(events[k], booted) {
      RunPrefix(events, i, leq);
      StaysBooted(events, i + 1, |events|, booted, leq);
      assert events[..|events|] == events;
      HarnessRests(events, leq);
      UndisturbedStep(s, BootEnds, booted, leq);
    }
  }

  // ---------------------------------------------------------------- a run in which the wrong tab is marked

  function Locked(tab: Text): TabInfo {
    TabInfo(tab, true, false, None, None)
  }

  /** The owner closes while its worker opens, and another tab takes over. */
  function OwnerCloses(owner: Text, next: Text): seq<HarnessEvent> {
    OwnerOpens(owner) + [Coordinate(CloseTab(owner))] + [Coordinate(RegisterTab(Locked(next)))]
  }

  lemma HarnessMore(events: seq<HarnessEvent>, event: HarnessEvent, leq: (Text, Text) -> bool)
    ensures HarnessRun(events + [event], leq) == HarnessStep(HarnessRun(events, leq), event, leq)
  {
    assert (events + [event])[..|events|] == events;
  }

  /** A tab with a lock that registers alone is the owner. */
  lemma OnlyTabOwns(m: Model, tab: Text, leq: (Text, Text) -> bool)
    requires m.tabs == [] && m.active == None && !m.status.UnsafeFallbackDisabled?
    ensures var t := Normalize(Locked(tab));
            Step(m, RegisterTab(Locked(tab)), leq) == Model([Entry(tab, t)], Some(tab), Electing)
  {
    var t := Normalize(Locked(tab));
    var tabs: Tabs := [Entry(tab, t)];
    assert Put(m.tabs, tab, t) == tabs && tabs[1..] == [];
    assert Holders(tabs) == [t];
    SortOne(t, ById(leq));
  }

  function OwnerOpens(owner: Text): seq<HarnessEvent> {
    [Coordinate(RegisterTab(Locked(owner)))] + [BootBegins]
  }

  lemma BootOpens(model: Model, owner: Text, leq: (Text, Text) -> bool)
    requires model.active == Some(owner) && owner != []
    ensures HarnessStep(HarnessState(model, map[owner := 0]), BootBegins, leq)
         == HarnessState(model, map[owner := 1])
  {
  }

  lemma OwnerIsOpen(owner: Text, leq: (Text, Text) -> bool)
    requires owner != []
    ensures HarnessRun(OwnerOpens(owner), leq)
         == HarnessState(Model([Entry(owner, Normalize(Locked(owner)))], Some(owner), Electing), map[owner := 1])
  {
    var first := Coordinate(RegisterTab(Locked(owner)));
    var model := Model([Entry(owner, Normalize(Locked(owner)))], Some(owner), Electing);
    OnlyTabOwns(FRESH, owner, leq);
    assert HarnessStep(NO_HARNESS, first, leq) == HarnessState(model, map[owner := 0]);
    HarnessMore([], first, leq);
    assert [] + [first] == [first];
    HarnessMore([first], BootBegins, leq);
    BootOpens(model, owner, leq);
  }

  lemma LastTabCloses(m: Model, owner: Text, leq: (Text, Text) -> bool)
    requires m == Model([Entry(owner, Normalize(Locked(owner)))], Some(owner), Electing)
    ensures Step(m, CloseTab(owner), leq) == Model([], None, NoOwner)
  {
    assert m.tabs[1..] == [] && Without(m.tabs, {owner}) == [];
    assert Holders([]) == [];
  }

  lemma NextTakesOver(owner: Text, next: Text, leq: (Text, Text) -> bool)
    requires owner != [] && next != [] && owner != next
    ensures var s := HarnessRun(OwnerCloses(owner, next), leq);
            s.model.active == Some(next) && s.opens == map[owner := 1, next := 0]
  {
    var e2 := OwnerOpens(owner);
    var e3 := e2 + [Coordinate(CloseTab(owner))];
    OwnerIsOpen(owner, leq);
    HarnessMore(e2, Coordinate(CloseTab(owner)), leq);
    LastTabCloses(HarnessRun(e2, leq).model, owner, leq);
    HarnessMore(e3, Coordinate(RegisterTab(Locked(next))), leq);
    OnlyTabOwns(HarnessRun(e3, leq).model, next, leq);
  }

  /** Requests then go to a tab whose worker was never opened. */
  lemma UnbootedOwnerIsMarked(owner: Text, next: Text, leq: (Text, Text) -> bool)
    requires IdOrder(leq) && owner != [] && next != [] && owner != next
    ensures var s := HarnessRun(OwnerCloses(owner, next) + [BootEnds], leq);
            RouteOf(s.model) == ActiveWorker(next) && s.opens == map[owner := 1, next := 0]
  {
    NextTakesOver(owner, next, leq);
    HarnessMore(OwnerCloses(owner, next), BootEnds, leq);
    BootMarksTheOwner(OwnerCloses(owner, next), leq);
  }
}
