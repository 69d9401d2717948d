/** The invariant of the bundle loader (pkg/projectbundle/bundle.go), step by step: each kind of step has a lemma that
    its outcome keeps every part of the invariant, for the call that moves and for all others. The main obligation is
    that two calls never lead for the same key. */
module LoaderInvariant {
  import opened Texts
  import opened Options
  import opened BundleLoader

  lemma InvThread(s: State, tid: nat)
    requires Inv(s) && tid < |s.threads|
    ensures ThreadInv(s, tid)
  {
  }

  /** Two calls that lead for the same key are the same call. */
  lemma OneLeader(s: State, a: nat, b: nat)
    requires Inv(s) && a < |s.threads| && b < |s.threads|
    requires s.threads[a].pc.Leading? && s.threads[b].pc.Leading?
    requires KeyOf(s.threads[a]) == KeyOf(s.threads[b])
    ensures a == b
  {
    InvThread(s, a);
    InvThread(s, b);
  }

  lemma PublishedGrows(s: State, s': State, hash: Text, app: App)
    requires Grows(s, s') && PublishedUnderHash(s, hash, app)
    ensures PublishedUnderHash(s', hash, app)
  {
    var modulePath :| Published(s, SharedKey(modulePath, hash), app);
    assert Published(s', SharedKey(modulePath, hash), app);
  }

  /** A step that only moves one call, without ending its lead or its publication. */
  lemma MoveInv(s: State, tid: nat, pc: Pc)
    requires Inv(s) && tid < |s.threads|
    requires ThreadInv(Moved(s, tid, pc), tid)
    requires var was := s.threads[tid].pc;
             was.Leading? ==> pc.Leading? && pc.flight == was.flight && !was.phase.Publish?
    ensures Inv(Moved(s, tid, pc))
  {
    var s' := Moved(s, tid, pc);
    forall other: nat | other < |s'.threads| ensures ThreadInv(s', other) {
      if other != tid { OtherThread(s, s', other); }
    }
    forall f: nat | f < |s'.flights| ensures FlightInv(s', f) {
      assert FlightInv(s, f);
    }
    forall app: nat | app < |s'.compiled| ensures CompiledInv(s', app) {
      assert CompiledInv(s, app);
    }
    KeepsApps(s, s');
  }

  lemma KeepsApps(s: State, s': State)
    requires Inv(s) && Grows(s, s') && s'.apps == s.apps
    ensures forall project :: project in s'.apps ==>
              PublishedUnderHash(s', s'.apps[project].hash, s'.apps[project].app)
  {
    forall project | project in s'.apps
      ensures PublishedUnderHash(s', s'.apps[project].hash, s'.apps[project].app)
    {
      PublishedGrows(s, s', s.apps[project].hash, s.apps[project].app);
    }
  }

  /** A call that does not move keeps its part of the invariant when flights, keys and published Apps it
      relies on stay. */
  lemma OtherThread(s: State, s': State, tid: nat)
    requires tid < |s.threads| && ThreadInv(s, tid) && Grows(s, s')
    requires tid < |s'.threads| && s'.threads[tid] == s.threads[tid]
    requires |s.flights| <= |s'.flights| && |s.compiled| <= |s'.compiled|
    requires forall f :: 0 <= f < |s.flights| ==> s'.flights[f].key == s.flights[f].key
    requires forall app :: 0 <= app < |s.compiled| ==> s'.compiled[app] == s.compiled[app]
    requires var t := s.threads[tid]; var key := KeyOf(t);
             t.pc.Leading? ==>
               && s'.flights[t.pc.flight] == s.flights[t.pc.flight]
               && key in s'.active && s'.active[key] == t.pc.flight
               && (key !in s.shared ==> key !in s'.shared)
               && (key !in s.compiled ==> key !in s'.compiled)
    ensures ThreadInv(s', tid)
  {
    var t := s.threads[tid];
    match t.pc
    case Done(result, fast) =>
      if fast { PublishedGrows(s, s', t.bundle.hash, result.app); }
    case _ =>
  }

  lemma CallInv(s: State, project: Text, bundle: Bundle)
    requires Inv(s)
    ensures Inv(Step(s, Call(project, bundle)))
  {
    var s' := Step(s, Call(project, bundle));
    forall tid: nat | tid < |s'.threads| ensures ThreadInv(s', tid) {
      if tid < |s.threads| {
        OtherThread(s, s', tid);
      }
    }
    forall f: nat | f < |s'.flights| ensures FlightInv(s', f) {
      assert FlightInv(s, f);
    }
    forall app: nat | app < |s'.compiled| ensures CompiledInv(s', app) {
      assert CompiledInv(s, app);
    }
    KeepsApps(s, s');
  }

  lemma FastPathInv(s: State, tid: nat)
    requires Inv(s) && At(s, tid) == Some(Start)
    ensures Inv(FastPathStep(s, tid))
  {
    var t := s.threads[tid];
    var pc := FastPathStep(s, tid).threads[tid].pc;
    assert FastPathStep(s, tid) == Moved(s, tid, pc);
    var s' := Moved(s, tid, pc);
    if pc.Done? && pc.fast {
      PublishedGrows(s, s', t.bundle.hash, pc.result.app);
    }
    MoveInv(s, tid, pc);
  }

  lemma JoinInv(s: State, tid: nat)
    requires Inv(s) && At(s, tid) == Some(Joining)
    ensures Inv(JoinStep(s, tid))
  {
    var key := KeyOf(s.threads[tid]);
    if key in s.active {
      MoveInv(s, tid, Waiting(s.active[key]));
    } else {
      var s' := JoinStep(s, tid);
      forall other: nat | other < |s'.threads| ensures ThreadInv(s', other) {
        if other != tid {
          InvThread(s, other);
          OtherThread(s, s', other);
        } else {
          JoinedLeader(s, tid);
        }
      }
      forall f: nat | f < |s'.flights| ensures FlightInv(s', f) {
        if f < |s.flights| { assert FlightInv(s, f); }
      }
      forall app: nat | app < |s'.compiled| ensures CompiledInv(s', app) {
        assert CompiledInv(s, app);
      }
      KeepsApps(s, s');
    }
  }

  lemma JoinedLeader(s: State, tid: nat)
    requires Inv(s) && At(s, tid) == Some(Joining) && KeyOf(s.threads[tid]) !in s.active
    ensures ThreadInv(JoinStep(s, tid), tid)
  {
  }

  /** Without a flight for it in the air, a key is compiled exactly when it is published. */
  lemma CompiledIsPublished(s: State, tid: nat)
    requires Inv(s) && tid < |s.threads| && s.threads[tid].pc.Leading? && s.threads[tid].pc.phase == CheckShared
    requires KeyOf(s.threads[tid]) !in s.shared
    ensures KeyOf(s.threads[tid]) !in s.compiled
  {
    InvThread(s, tid);
    var key := KeyOf(s.threads[tid]);
    forall app: nat | app < |s.compiled| ensures s.compiled[app] != key {
      assert CompiledInv(s, app);
    }
  }

  lemma ReadSharedInv(s: State, tid: nat, flight: nat)
    requires Inv(s) && At(s, tid) == Some(Leading(flight, CheckShared))
    ensures Inv(Step(s, ReadShared(tid)))
  {
    InvThread(s, tid);
    var key := KeyOf(s.threads[tid]);
    if key !in s.shared {
      CompiledIsPublished(s, tid);
    }
    MoveInv(s, tid, Leading(flight, if key in s.shared then Finish(Ok(s.shared[key])) else Compile));
  }

  lemma CompileInvAt(s: State, tid: nat, flight: nat, other: nat)
    requires Inv(s) && At(s, tid) == Some(Leading(flight, Compile)) && other < |s.threads|
    ensures ThreadInv(Step(s, CompileBundle(tid, true)), other)
  {
    var s' := Step(s, CompileBundle(tid, true));
    var key := KeyOf(s.threads[tid]);
    InvThread(s, tid);
    assert KeyOf(s'.threads[tid]) == key;
    if other != tid {
      InvThread(s, other);
      if s.threads[other].pc.Leading? && KeyOf(s.threads[other]) == key {
        OneLeader(s, tid, other);
      }
      OtherThread(s, s', other);
    }
  }

  lemma CompiledInvAt(s: State, tid: nat, flight: nat, app: nat)
    requires Inv(s) && At(s, tid) == Some(Leading(flight, Compile)) && app <= |s.compiled|
    ensures CompiledInv(Step(s, CompileBundle(tid, true)), app)
  {
    InvThread(s, tid);
    if app < |s.compiled| { assert CompiledInv(s, app); }
  }

  lemma CompileInv(s: State, tid: nat, flight: nat)
    requires Inv(s) && At(s, tid) == Some(Leading(flight, Compile))
    ensures Inv(Step(s, CompileBundle(tid, true)))
  {
    var s' := Step(s, CompileBundle(tid, true));
    InvThread(s, tid);
    forall other: nat | other < |s'.threads| ensures ThreadInv(s', other) {
      CompileInvAt(s, tid, flight, other);
    }
    forall f: nat | f < |s'.flights| ensures FlightInv(s', f) {
      assert FlightInv(s, f);
    }
    forall app: nat | app < |s'.compiled| ensures CompiledInv(s', app) {
      CompiledInvAt(s, tid, flight, app);
    }
    KeepsApps(s, s');
  }

  lemma PublishInvAt(s: State, tid: nat, flight: nat, app: App, other: nat)
    requires Inv(s) && At(s, tid) == Some(Leading(flight, Publish(app))) && other < |s.threads|
    ensures ThreadInv(Step(s, PublishApp(tid)), other)
  {
    var s' := Step(s, PublishApp(tid));
    var key := KeyOf(s.threads[tid]);
    InvThread(s, tid);
    assert KeyOf(s'.threads[tid]) == key;
    if other != tid {
      InvThread(s, other);
      if s.threads[other].pc.Leading? && KeyOf(s.threads[other]) == key {
        OneLeader(s, tid, other);
      }
      OtherThread(s, s', other);
    }
  }

  lemma PublishInv(s: State, tid: nat, flight: nat, app: App)
    requires Inv(s) && At(s, tid) == Some(Leading(flight, Publish(app)))
    ensures Inv(Step(s, PublishApp(tid))) && Grows(s, Step(s, PublishApp(tid)))
  {
    var s' := Step(s, PublishApp(tid));
    var key := KeyOf(s.threads[tid]);
    InvThread(s, tid);
    forall other: nat | other < |s'.threads| ensures ThreadInv(s', other) {
      PublishInvAt(s, tid, flight, app, other);
    }
    forall f: nat | f < |s'.flights| ensures FlightInv(s', f) {
      assert FlightInv(s, f);
    }
    forall a: nat | a < |s'.compiled| ensures CompiledInv(s', a) {
      assert CompiledInv(s, a);
      if s.compiled[a] == key {
        assert a == app;
      }
    }
    KeepsApps(s, s');
  }

  lemma FinishInvAt(s: State, tid: nat, flight: nat, result: LoadResult, other: nat)
    requires Inv(s) && At(s, tid) == Some(Leading(flight, Finish(result))) && other < |s.threads|
    ensures ThreadInv(Step(s, FinishFlight(tid)), other)
  {
    var s' := Step(s, FinishFlight(tid));
    var key := KeyOf(s.threads[tid]);
    InvThread(s, tid);
    assert KeyOf(s'.threads[tid]) == key;
    if other != tid {
      InvThread(s, other);
      if s.threads[other].pc.Leading? && KeyOf(s.threads[other]) == key {
        OneLeader(s, tid, other);
      }
      OtherThread(s, s', other);
    }
  }

  lemma FinishInv(s: State, tid: nat, flight: nat, result: LoadResult)
    requires Inv(s) && At(s, tid) == Some(Leading(flight, Finish(result)))
    ensures Inv(Step(s, FinishFlight(tid)))
  {
    var s' := Step(s, FinishFlight(tid));
    var key := KeyOf(s.threads[tid]);
    InvThread(s, tid);
    forall other: nat | other < |s'.threads| ensures ThreadInv(s', other) {
      FinishInvAt(s, tid, flight, result, other);
    }
    forall f: nat | f < |s'.flights| ensures FlightInv(s', f) {
      assert FlightInv(s, f);
    }
    forall app: nat | app < |s'.compiled| ensures CompiledInv(s', app) {
      assert CompiledInv(s, app);
    }
    KeepsApps(s, s');
  }

  lemma WakeInv(s: State, tid: nat, flight: nat)
    requires Inv(s) && At(s, tid) == Some(Waiting(flight))
    ensures Inv(Step(s, Wake(tid)))
  {
    InvThread(s, tid);
    if s.flights[flight].outcome.Some? {
      assert FlightInv(s, flight);
      MoveInv(s, tid, Resumed(s.flights[flight].outcome.value));
    }
  }

  lemma StoreInv(s: State, tid: nat, app: App)
    requires Inv(s) && At(s, tid) == Some(Resumed(Ok(app)))
    ensures Inv(Step(s, StoreApp(tid)))
  {
    var t := s.threads[tid];
    InvThread(s, tid);
    var moved := Moved(s, tid, Done(Ok(app), false));
    MoveInv(s, tid, Done(Ok(app), false));
    var s' := Step(s, StoreApp(tid));
    assert s' == moved.(apps := s.apps[ProjectOf(t) := Loaded(t.bundle.hash, app)]);
    assert Published(s', SharedKey(ModulePathOf(ProjectOf(t), t.bundle), t.bundle.hash), app);
    forall other: nat | other < |s'.threads| ensures ThreadInv(s', other) {
      InvThread(moved, other);
      OtherThread(moved, s', other);
    }
    forall f: nat | f < |s'.flights| ensures FlightInv(s', f) {
      assert FlightInv(moved, f);
    }
    forall a: nat | a < |s'.compiled| ensures CompiledInv(s', a) {
      assert CompiledInv(moved, a);
    }
    forall project | project in s'.apps
      ensures PublishedUnderHash(s', s'.apps[project].hash, s'.apps[project].app)
    {
      if project != ProjectOf(t) {
        PublishedGrows(s, s', s.apps[project].hash, s.apps[project].app);
      }
    }
  }

  lemma ReadSharedKeeps(s: State, tid: nat)
    requires Inv(s)
    ensures Inv(Step(s, ReadShared(tid)))
  {
    match At(s, tid) {
      case Some(Leading(flight, CheckShared)) => ReadSharedInv(s, tid, flight);
      case _ => assert Step(s, ReadShared(tid)) == s;
    }
  }

  lemma CompileKeeps(s: State, tid: nat, succeeds: bool)
    requires Inv(s)
    ensures Inv(Step(s, CompileBundle(tid, succeeds)))
  {
    match At(s, tid) {
      case Some(Leading(flight, Compile)) =>
        if succeeds {
          CompileInv(s, tid, flight);
        } else {
          InvThread(s, tid);
          MoveInv(s, tid, Leading(flight, Finish(Err(CompileFailed))));
        }
      case _ => assert Step(s, CompileBundle(tid, succeeds)) == s;
    }
  }

  lemma PublishKeeps(s: State, tid: nat)
    requires Inv(s)
    ensures Inv(Step(s, PublishApp(tid)))
  {
    match At(s, tid) {
      case Some(Leading(flight, Publish(app))) => PublishInv(s, tid, flight, app);
      case _ => assert Step(s, PublishApp(tid)) == s;
    }
  }

  lemma FinishKeeps(s: State, tid: nat)
    requires Inv(s)
    ensures Inv(Step(s, FinishFlight(tid)))
  {
    match At(s, tid) {
      case Some(Leading(flight, Finish(result))) => FinishInv(s, tid, flight, result);
      case _ => assert Step(s, FinishFlight(tid)) == s;
    }
  }

  lemma StoreKeeps(s: State, tid: nat)
    requires Inv(s)
    ensures Inv(Step(s, StoreApp(tid)))
  {
    match At(s, tid) {
      case Some(Resumed(Ok(app))) => StoreInv(s, tid, app);
      case Some(Resumed(Err(error))) => MoveInv(s, tid, Done(Err(error), false));
      case _ => assert Step(s, StoreApp(tid)) == s;
    }
  }

  lemma CallerKeeps(s: State, tid: nat)
    requires Inv(s)
    ensures Inv(Step(s, FastPath(tid))) && Inv(Step(s, Join(tid))) && Inv(Step(s, Wake(tid)))
  {
    match At(s, tid) {
      case Some(Start) => FastPathInv(s, tid);
      case Some(Joining) => JoinInv(s, tid);
      case Some(Waiting(flight)) => WakeInv(s, tid, flight);
      case _ =>
    }
  }

  /** Every step of every call keeps the invariant. */
  lemma StepInv(s: State, action: Action)
    requires Inv(s)
    ensures Inv(Step(s, action))
  {
    match action
    case Call(project, bundle) => CallInv(s, project, bundle);
    case FastPath(tid) => CallerKeeps(s, tid);
    case Join(tid) => CallerKeeps(s, tid);
    case ReadShared(tid) => ReadSharedKeeps(s, tid);
    case CompileBundle(tid, succeeds) => CompileKeeps(s, tid, succeeds);
    case PublishApp(tid) => PublishKeeps(s, tid);
    case FinishFlight(tid) => FinishKeeps(s, tid);
    case Wake(tid) => CallerKeeps(s, tid);
    case StoreApp(tid) => StoreKeeps(s, tid);
  }

  /** Nothing published ever changes. */
  lemma StepGrows(s: State, action: Action)
    requires Inv(s)
    ensures Grows(s, Step(s, action))
  {
    if action.PublishApp? && action.tid < |s.threads| {
      InvThread(s, action.tid);
    }
  }

  lemma StepExtends(s: State, action: Action)
    ensures s.compiled <= Step(s, action).compiled
  {
  }

  lemma StepSettles(s: State, action: Action)
    ensures Settles(s, Step(s, action))
  {
    match action
    case Call(project, bundle) =>
    case _ => StepMoves(s, action);
  }

  /** The step changes no call but `tid`, and that one only towards its end. */
  ghost predicate OneMoves(s: State, s': State, tid: nat) {
    s' == s || exists pc :: Progresses(s, s', tid, pc)
  }

  lemma CallerMoves(s: State, tid: nat)
    ensures OneMoves(s, Step(s, FastPath(tid)), tid) && OneMoves(s, Step(s, Join(tid)), tid)
  {
    if At(s, tid) == Some(Start) {
      assert Progresses(s, Step(s, FastPath(tid)), tid, Step(s, FastPath(tid)).threads[tid].pc);
    }
    if At(s, tid) == Some(Joining) {
      assert Progresses(s, Step(s, Join(tid)), tid, Step(s, Join(tid)).threads[tid].pc);
    }
  }

  lemma ReturnerMoves(s: State, tid: nat)
    ensures OneMoves(s, Step(s, Wake(tid)), tid) && OneMoves(s, Step(s, StoreApp(tid)), tid)
  {
    match At(s, tid) {
      case Some(Waiting(flight)) =>
        if Step(s, Wake(tid)) != s {
          assert Progresses(s, Step(s, Wake(tid)), tid, Step(s, Wake(tid)).threads[tid].pc);
        }
      case Some(Resumed(result)) =>
        assert Progresses(s, Step(s, StoreApp(tid)), tid, Done(result, false));
      case _ =>
    }
  }

  lemma LeaderMoves(s: State, tid: nat, succeeds: bool)
    ensures OneMoves(s, Step(s, ReadShared(tid)), tid) && OneMoves(s, Step(s, CompileBundle(tid, succeeds)), tid)
    ensures OneMoves(s, Step(s, PublishApp(tid)), tid) && OneMoves(s, Step(s, FinishFlight(tid)), tid)
  {
    match At(s, tid) {
      case Some(Leading(flight, CheckShared)) =>
        assert Progresses(s, Step(s, ReadShared(tid)), tid, Step(s, ReadShared(tid)).threads[tid].pc);
      case Some(Leading(flight, Compile)) =>
        var s' := Step(s, CompileBundle(tid, succeeds));
        assert Progresses(s, s', tid, s'.threads[tid].pc);
      case Some(Leading(flight, Publish(app))) =>
        assert Progresses(s, Step(s, PublishApp(tid)), tid, Leading(flight, Finish(Ok(app))));
      case Some(Leading(flight, Finish(result))) =>
        if flight < |s.flights| {
          assert Progresses(s, Step(s, FinishFlight(tid)), tid, Resumed(result));
        }
      case _ =>
    }
  }

  /** A step of a call changes no other call, and only an unfinished one; it leaves it nearer its end. */
  lemma StepMoves(s: State, action: Action)
    requires !action.Call?
    ensures OneMoves(s, Step(s, action), action.tid)
  {
    CallerMoves(s, action.tid);
    ReturnerMoves(s, action.tid);
    LeaderMoves(s, action.tid, action.CompileBundle? && action.succeeds);
  }
}
