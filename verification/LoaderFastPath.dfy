/** The fast path of `Loader.Load` (pkg/projectbundle/bundle.go): whose App it returns. */
module LoaderFastPath {
  import opened Texts
  import opened Options
  import opened BundleLoader
  import opened LoaderInvariant
  import opened LoaderRuns

  // ---------------------------------------------------------------- where a project's App comes from

  /** The step with which a load past the fast path stores its App for the project. */
  predicate Stores(s: State, action: Action, project: Text) {
    action.StoreApp? && action.tid < |s.threads| && ProjectOf(s.threads[action.tid]) == project
    && s.threads[action.tid].pc.Resumed? && s.threads[action.tid].pc.result.Ok?
  }

  /** The module path of the last load that stored an App for the project. */
  function LastStoredPath(actions: seq<Action>, project: Text): Option<Text> {
    if actions == [] then None
    else
      var before, action := actions[..|actions| - 1], actions[|actions| - 1];
      var s := Run(IDLE, before);
      if Stores(s, action, project) then Some(ModulePathOf(project, s.threads[action.tid].bundle))
      else LastStoredPath(before, project)
  }

  lemma {:induction false} RunAppend(s: State, actions: seq<Action>, action: Action)
    ensures Run(s, actions + [action]) == Step(Run(s, actions), action)
    decreases |actions|
  {
    if actions != [] {
      assert (actions + [action])[1..] == actions[1..] + [action];
      RunAppend(Step(s, actions[0]), actions[1..], action);
    }
  }

  lemma RunLast(actions: seq<Action>)
    requires actions != []
    ensures var n := |actions| - 1;
            Run(IDLE, actions) == Step(Run(IDLE, actions[..n]), actions[n])
  {
    var n := |actions| - 1;
    RunSplit(IDLE, actions, actions[..n], actions[n]);
  }

  lemma RunSplit(s: State, actions: seq<Action>, init: seq<Action>, last: Action)
    requires actions == init + [last]
    ensures Run(s, actions) == Step(Run(s, init), last)
  {
    RunAppend(s, init, last);
  }

  /** What a project's entry holds was published under the module path of the load that stored it. */
  ghost predicate CameFrom(s: State, project: Text, path: Option<Text>) {
    && (project in s.apps <==> path.Some?)
    && (project in s.apps ==> Published(s, SharedKey(path.value, s.apps[project].hash), s.apps[project].app))
  }

  lemma StepKeepsOrigin(s: State, action: Action, project: Text, path: Option<Text>)
    requires Inv(s) && CameFrom(s, project, path)
    ensures CameFrom(Step(s, action), project,
                     if Stores(s, action, project) then Some(ModulePathOf(project, s.threads[action.tid].bundle))
                     else path)
  {
    StepGrows(s, action);
    if Stores(s, action, project) {
      InvThread(s, action.tid);
    } else {
      StepKeepsEntry(s, action, project);
    }
  }

  lemma StepKeepsEntry(s: State, action: Action, project: Text)
    requires !Stores(s, action, project)
    ensures var s' := Step(s, action);
            (project in s'.apps <==> project in s.apps)
            && (project in s.apps ==> s'.apps[project] == s.apps[project])
  {
  }

  lemma {:induction false} AppsCameFrom(actions: seq<Action>, project: Text)
    ensures CameFrom(Run(IDLE, actions), project, LastStoredPath(actions, project))
  {
    if actions != [] {
      var n := |actions| - 1;
      AppsCameFrom(actions[..n], project);
      RunKeeps(IDLE, actions[..n]);
      RunLast(actions);
      StepKeepsOrigin(Run(IDLE, actions[..n]), actions[n], project, LastStoredPath(actions[..n], project));
    }
  }

  /** The last load that stored an App for the project. */
  function LastStorer(actions: seq<Action>, project: Text): Option<nat> {
    if actions == [] then None
    else
      var before, action := actions[..|actions| - 1], actions[|actions| - 1];
      if Stores(Run(IDLE, before), action, project) then Some(action.tid) else LastStorer(before, project)
  }

  /** The project's App is what that load returned. */
  ghost predicate StoredBy(s: State, project: Text, storer: Option<nat>) {
    if storer.None? then project !in s.apps
    else
      && storer.value < |s.threads| && project in s.apps
      && s.threads[storer.value].pc == Done(Ok(s.apps[project].app), false)
  }

  lemma StepKeepsStorer(s: State, action: Action, project: Text, storer: Option<nat>)
    requires StoredBy(s, project, storer)
    ensures StoredBy(Step(s, action), project, if Stores(s, action, project) then Some(action.tid) else storer)
  {
    StepSettles(s, action);
    if !Stores(s, action, project) {
      StepKeepsEntry(s, action, project);
    }
  }

  lemma {:induction false} LastStorerStored(actions: seq<Action>, project: Text)
    ensures StoredBy(Run(IDLE, actions), project, LastStorer(actions, project))
  {
    if actions != [] {
      var n := |actions| - 1;
      LastStorerStored(actions[..n], project);
      RunLast(actions);
      StepKeepsStorer(Run(IDLE, actions[..n]), actions[n], project, LastStorer(actions[..n], project));
    }
  }

  /** `AppForProject` answers with what the last load that stored an App for the project returned, and with
      nothing before the first. */
  lemma AppForProjectIsLastStored(actions: seq<Action>, project: Text)
    requires project != []
    ensures var s, last := Run(IDLE, actions), LastStorer(actions, project);
            if last.None? then AppForProject(s, project) == None
            else last.value < |s.threads| && AppForProject(s, project).Some?
                 && s.threads[last.value].pc == Done(Ok(AppForProject(s, project).value), false)
  {
    LastStorerStored(actions, project);
  }

  // ---------------------------------------------------------------- whose App a load gets

  /** The fast path answers with the App compiled for the call's own identity exactly when the last load that
      stored an App for the project resolved to the same module path. */
  lemma AnswersOwnExactly(actions: seq<Action>, tid: nat)
    requires var s := Run(IDLE, actions);
             && tid < |s.threads| && s.threads[tid].pc == Start
             && var pc := Step(s, FastPath(tid)).threads[tid].pc; pc.Done? && pc.fast
    ensures var s, s' := Run(IDLE, actions), Step(Run(IDLE, actions), FastPath(tid));
            var t := s.threads[tid];
            && s'.threads[tid].pc.result.Ok? && s'.threads[tid].pc.result.app < |s.compiled|
            && (s.compiled[s'.threads[tid].pc.result.app] == KeyOf(t)
                <==> LastStoredPath(actions, ProjectOf(t)) == Some(ModulePathOf(ProjectOf(t), t.bundle)))
  {
    var s := Run(IDLE, actions);
    var t := s.threads[tid];
    RunKeeps(IDLE, actions);
    AppsCameFrom(actions, ProjectOf(t));
    SameHashSamePath(LastStoredPath(actions, ProjectOf(t)).value, ModulePathOf(ProjectOf(t), t.bundle), t.bundle.hash);
  }

  lemma SameHashSamePath(path: Text, other: Text, hash: Text)
    ensures SharedKey(path, hash) == SharedKey(other, hash) <==> path == other
  {
    var l, r := SharedKey(path, hash), SharedKey(other, hash);
    if l == r {
      assert |path| == |other|;
      assert path == l[..|path|] == r[..|other|] == other;
    }
  }

  /** The call's moment on the fast path. */
  ghost predicate AnsweredAt(actions: seq<Action>, tid: nat, i: nat) {
    && i < |actions| && actions[i] == FastPath(tid)
    && tid < |Run(IDLE, actions[..i]).threads| && Run(IDLE, actions[..i]).threads[tid].pc == Start
  }

  /** Over all runs: a load that the fast path answered got the App compiled for its own identity if and only if,
      at that moment, the last load that had stored an App for its project had the same module path. */
  lemma {:induction false} FastLoadIsOwnExactly(actions: seq<Action>, tid: nat) returns (i: nat)
    requires var s := Run(IDLE, actions); tid < |s.threads| && s.threads[tid].pc.Done? && s.threads[tid].pc.fast
    ensures AnsweredAt(actions, tid, i)
    ensures var s := Run(IDLE, actions);
            var t := s.threads[tid];
            && t.pc.result.Ok? && t.pc.result.app < |s.compiled|
            && (s.compiled[t.pc.result.app] == KeyOf(t)
                <==> LastStoredPath(actions[..i], ProjectOf(t)) == Some(ModulePathOf(ProjectOf(t), t.bundle)))
  {
    var n := |actions| - 1;
    var before := actions[..n];
    var s, s' := Run(IDLE, before), Run(IDLE, actions);
    RunLast(actions);
    RunKeeps(IDLE, before);
    StepExtends(s, actions[n]);
    StepSettles(s, actions[n]);
    if tid < |s.threads| && s.threads[tid].pc.Done? {
      i := FastLoadIsOwnExactly(before, tid);
      assert before[..i] == actions[..i];
    } else {
      i := n;
      FastAnswer(s, actions[n], tid);
      AnswersOwnExactly(before, tid);
    }
  }

  /** Only the fast path finishes a call that way. */
  lemma FastAnswer(s: State, action: Action, tid: nat)
    requires tid < |Step(s, action).threads|
    requires Step(s, action).threads[tid].pc.Done? && Step(s, action).threads[tid].pc.fast
    requires tid >= |s.threads| || !s.threads[tid].pc.Done?
    ensures action == FastPath(tid) && tid < |s.threads| && s.threads[tid].pc == Start
  {
    if action.Call? {
      assert false;
    } else {
      StepMoves(s, action);
      var pc :| Progresses(s, Step(s, action), action.tid, pc);
      if !action.FastPath? {
        OthersAreNotFast(s, action);
        assert false;
      }
    }
  }

  lemma OthersAreNotFast(s: State, action: Action)
    requires !action.Call? && !action.FastPath? && action.tid < |s.threads| && Step(s, action) != s
    ensures var pc := Step(s, action).threads[action.tid].pc; pc.Done? ==> !pc.fast
  {
  }

  // ---------------------------------------------------------------- a run in which they differ

  lemma RunOne(s: State, action: Action, rest: seq<Action>)
    ensures Run(s, [action] + rest) == Run(Step(s, action), rest)
  {
    assert ([action] + rest)[1..] == rest;
  }

  function LoadThen(project: Text, bundle: Bundle, rest: seq<Action>): seq<Action> {
    [Call(project, bundle)] + ([FastPath(0)] + ([Join(0)] + ([ReadShared(0)] + CompileThen(rest))))
  }

  function CompileThen(rest: seq<Action>): seq<Action> {
    [CompileBundle(0, true)] + ([PublishApp(0)] + ([FinishFlight(0)] + ([StoreApp(0)] + rest)))
  }

  /** The first load alone has found nothing published. */
  function HalfLoaded(t: Thread): State {
    State(map[], map[], map[KeyOf(t) := 0], [Flight(KeyOf(t), 0, None)], [t.(pc := Leading(0, Compile))], [])
  }

  /** The first load alone has returned. */
  function OnceLoaded(t: Thread): State {
    State(map[ProjectOf(t) := Loaded(t.bundle.hash, 0)], map[KeyOf(t) := 0], map[],
          [Flight(KeyOf(t), 0, Some(Ok(0)))], [t.(pc := Done(Ok(0), false))], [KeyOf(t)])
  }

  lemma RunStep(s: State, action: Action, s': State, rest: seq<Action>)
    requires Step(s, action) == s'
    ensures Run(s, [action] + rest) == Run(s', rest)
  {
    RunOne(s, action, rest);
  }

  lemma FirstHalf(t: Thread, rest: seq<Action>)
    requires t.pc == Start && ProjectOf(t) != [] && t.bundle.hash != [] && t.bundle.hasFiles
    ensures Run(IDLE, LoadThen(t.project, t.bundle, rest)) == Run(HalfLoaded(t), CompileThen(rest))
  {
    var s1 := IDLE.(threads := [t]);
    var s2 := IDLE.(threads := [t.(pc := Joining)]);
    var s3 := HalfLoaded(t).(threads := [t.(pc := Leading(0, CheckShared))]);
    var rest3 := [ReadShared(0)] + CompileThen(rest);
    assert t == Thread(t.project, t.bundle, Start);
    RunStep(IDLE, Call(t.project, t.bundle), s1, [FastPath(0)] + ([Join(0)] + rest3));
    RunStep(s1, FastPath(0), s2, [Join(0)] + rest3);
    RunStep(s2, Join(0), s3, rest3);
    RunStep(s3, ReadShared(0), HalfLoaded(t), CompileThen(rest));
  }

  lemma SecondHalf(t: Thread, rest: seq<Action>)
    requires t.pc == Start
    ensures Run(HalfLoaded(t), CompileThen(rest)) == Run(OnceLoaded(t), rest)
  {
    var s4 := HalfLoaded(t);
    var s5 := s4.(threads := [t.(pc := Leading(0, Publish(0)))], compiled := [KeyOf(t)]);
    var s6 := s5.(threads := [t.(pc := Leading(0, Finish(Ok(0))))], shared := map[KeyOf(t) := 0]);
    RunStep(s4, CompileBundle(0, true), s5, [PublishApp(0)] + ([FinishFlight(0)] + ([StoreApp(0)] + rest)));
    RunStep(s5, PublishApp(0), s6, [FinishFlight(0)] + ([StoreApp(0)] + rest));
    LastQuarter(t, s6, rest);
  }

  lemma LastQuarter(t: Thread, s6: State, rest: seq<Action>)
    requires t.pc == Start
    requires s6 == State(map[], map[KeyOf(t) := 0], map[KeyOf(t) := 0], [Flight(KeyOf(t), 0, None)],
                         [t.(pc := Leading(0, Finish(Ok(0))))], [KeyOf(t)])
    ensures Run(s6, [FinishFlight(0)] + ([StoreApp(0)] + rest)) == Run(OnceLoaded(t), rest)
  {
    var s7 := OnceLoaded(t).(threads := [t.(pc := Resumed(Ok(0)))], apps := map[]);
    RunStep(s6, FinishFlight(0), s7, [StoreApp(0)] + rest);
    RunStep(s7, StoreApp(0), OnceLoaded(t), rest);
  }

  /** The fast path compares the project and the hash only: after a load of one bundle, a load of the same
      project with the same hash and another module path returns the App compiled for the first identity, and
      nothing is ever compiled for its own. */
  lemma FastPathIgnoresModulePath(project: Text, bundle: Bundle, other: Bundle)
    requires Trim(project) != [] && bundle.hash != [] && bundle.hasFiles && other.hasFiles
    requires bundle.hash == other.hash
    ensures var s := Run(IDLE, LoadThen(project, bundle, [Call(project, other)] + ([FastPath(1)] + [])));
            && |s.threads| == 2 && s.threads[1] == Thread(project, other, Done(Ok(0), true))
            && s.compiled == [KeyOf(Thread(project, bundle, Start))]
  {
    var t := Thread(project, bundle, Start);
    var rest := [FastPath(1)] + [];
    FirstHalf(t, [Call(project, other)] + rest);
    SecondHalf(t, [Call(project, other)] + rest);
    RunOne(OnceLoaded(t), Call(project, other), rest);
    RunOne(Step(OnceLoaded(t), Call(project, other)), FastPath(1), []);
  }
}
