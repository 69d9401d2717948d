/** What loads return (pkg/projectbundle/bundle.go): the leader's result goes to every load that joined its flight. */
module LoaderFlights {
  import opened Texts
  import opened Options
  import opened BundleLoader
  import opened LoaderInvariant
  import opened LoaderRuns
  import opened LoaderFastPath

  /** The call joins a flight, or starts one, with this action. */
  predicate Joins(actions: seq<Action>, i: nat, tid: nat) {
    i < |actions| && actions[i] == Join(tid) && At(Run(IDLE, actions[..i]), tid) == Some(Joining)
  }

  /** The call compiles its bundle, or fails to, with this action. */
  predicate Compiles(actions: seq<Action>, k: nat, tid: nat) {
    && k < |actions| && actions[k].CompileBundle? && actions[k].tid == tid
    && var pc := At(Run(IDLE, actions[..k]), tid); pc.Some? && pc.value.Leading? && pc.value.phase == Compile
  }

  /** What a compilation gives: the next App, or a failure. */
  function Outcome(actions: seq<Action>, k: nat): LoadResult
    requires k < |actions| && actions[k].CompileBundle?
  {
    if actions[k].succeeds then Ok(|Run(IDLE, actions[..k]).compiled|) else Err(CompileFailed)
  }

  /** The call leads a flight for the key. */
  predicate Leads(s: State, tid: nat, key: Text) {
    tid < |s.threads| && s.threads[tid].pc.Leading? && KeyOf(s.threads[tid]) == key
  }

  /** The call has got `result` from a flight. */
  predicate Got(s: State, tid: nat, result: LoadResult) {
    tid < |s.threads| && (s.threads[tid].pc == Resumed(result) || s.threads[tid].pc == Done(result, false))
  }

  // ---------------------------------------------------------------- from joining to the result

  /** The call and the leader of the flight it joined: the flight is in the air, or has landed and its outcome is on
      its way to both. */
  ghost predicate Together(s: State, tid: nat, leader: nat, f: nat) {
    && tid < |s.threads| && leader < |s.threads| && f < |s.flights| && s.flights[f].leader == leader
    && match s.flights[f].outcome
       case None =>
         && s.threads[leader].pc.Leading? && s.threads[leader].pc.flight == f
         && (tid == leader || s.threads[tid].pc == Waiting(f))
       case Some(result) =>
         Got(s, leader, result) && (Got(s, tid, result) || s.threads[tid].pc == Waiting(f))
  }

  lemma FinishTogether(s: State, action: Action, tid: nat, leader: nat, f: nat)
    requires Inv(s) && Together(s, tid, leader, f) && action.FinishFlight?
    ensures Together(Step(s, action), tid, leader, f)
  {
    if action.tid < |s.threads| && s.threads[action.tid].pc.Leading? {
      InvThread(s, action.tid);
    }
  }

  lemma CallTogether(s: State, project: Text, bundle: Bundle, tid: nat, leader: nat, f: nat)
    requires Together(s, tid, leader, f)
    ensures Together(Step(s, Call(project, bundle)), tid, leader, f)
  {
  }

  lemma FastPathTogether(s: State, other: nat, tid: nat, leader: nat, f: nat)
    requires Together(s, tid, leader, f)
    ensures Together(Step(s, FastPath(other)), tid, leader, f)
  {
  }

  lemma JoinTogether(s: State, other: nat, tid: nat, leader: nat, f: nat)
    requires Inv(s) && Together(s, tid, leader, f)
    ensures Together(Step(s, Join(other)), tid, leader, f)
  {
  }

  lemma WakeTogether(s: State, other: nat, tid: nat, leader: nat, f: nat)
    requires Inv(s) && Together(s, tid, leader, f)
    ensures Together(Step(s, Wake(other)), tid, leader, f)
  {
  }

  lemma StoreTogether(s: State, other: nat, tid: nat, leader: nat, f: nat)
    requires Inv(s) && Together(s, tid, leader, f)
    ensures Together(Step(s, StoreApp(other)), tid, leader, f)
  {
  }

  lemma ReadTogether(s: State, other: nat, tid: nat, leader: nat, f: nat)
    requires Together(s, tid, leader, f)
    ensures Together(Step(s, ReadShared(other)), tid, leader, f)
  {
  }

  lemma CompileTogether(s: State, other: nat, succeeds: bool, tid: nat, leader: nat, f: nat)
    requires Together(s, tid, leader, f)
    ensures Together(Step(s, CompileBundle(other, succeeds)), tid, leader, f)
  {
  }

  lemma PublishTogether(s: State, other: nat, tid: nat, leader: nat, f: nat)
    requires Together(s, tid, leader, f)
    ensures Together(Step(s, PublishApp(other)), tid, leader, f)
  {
  }

  lemma StepTogether(s: State, action: Action, tid: nat, leader: nat, f: nat)
    requires Inv(s) && Together(s, tid, leader, f)
    ensures Together(Step(s, action), tid, leader, f)
  {
    match action
    case Call(project, bundle) => CallTogether(s, project, bundle, tid, leader, f);
    case FastPath(other) => FastPathTogether(s, other, tid, leader, f);
    case Join(other) => JoinTogether(s, other, tid, leader, f);
    case ReadShared(other) => ReadTogether(s, other, tid, leader, f);
    case CompileBundle(other, succeeds) => CompileTogether(s, other, succeeds, tid, leader, f);
    case PublishApp(other) => PublishTogether(s, other, tid, leader, f);
    case FinishFlight(_) => FinishTogether(s, action, tid, leader, f);
    case Wake(other) => WakeTogether(s, other, tid, leader, f);
    case StoreApp(other) => StoreTogether(s, other, tid, leader, f);
  }

  lemma {:induction false} RunTogether(actions: seq<Action>, i: nat, tid: nat, leader: nat, f: nat)
    requires i <= |actions| && Together(Run(IDLE, actions[..i]), tid, leader, f)
    ensures Together(Run(IDLE, actions), tid, leader, f)
    decreases |actions|
  {
    var n := |actions| - 1;
    if i == |actions| {
      assert actions[..i] == actions;
    } else {
      assert actions[..n][..i] == actions[..i];
      RunTogether(actions[..n], i, tid, leader, f);
      RunKeeps(IDLE, actions[..n]);
      RunLast(actions);
      StepTogether(Run(IDLE, actions[..n]), actions[n], tid, leader, f);
    }
  }

  lemma RunNext(actions: seq<Action>, i: nat)
    requires i < |actions|
    ensures Run(IDLE, actions[..i + 1]) == Step(Run(IDLE, actions[..i]), actions[i])
  {
    RunLast(actions[..i + 1]);
    assert actions[..i + 1][..i] == actions[..i];
  }

  /** Joining leaves exactly one call that leads a flight for the key: the call itself, or the one it waits for. */
  lemma JoinFindsLeader(actions: seq<Action>, i: nat, tid: nat) returns (leader: nat)
    requires Joins(actions, i, tid)
    ensures var s := Run(IDLE, actions[..i + 1]);
            && tid < |s.threads|
            && forall other: nat :: Leads(s, other, KeyOf(s.threads[tid])) <==> other == leader
  {
    var s, s' := Run(IDLE, actions[..i]), Run(IDLE, actions[..i + 1]);
    RunNext(actions, i);
    RunKeeps(IDLE, actions[..i + 1]);
    RunKeeps(IDLE, actions[..i]);
    InvThread(s', tid);
    var key := KeyOf(s.threads[tid]);
    assert KeyOf(s'.threads[tid]) == key;
    leader := tid;
    if key in s.active {
      leader := s.flights[s.active[key]].leader;
      assert FlightInv(s, s.active[key]);
      InvThread(s, leader);
      assert s'.threads[leader] == s.threads[leader];
    }
    forall other: nat | Leads(s', other, key) ensures other == leader {
      OneLeader(s', other, leader);
    }
  }

  lemma JoinedTogether(actions: seq<Action>, i: nat, tid: nat, leader: nat) returns (f: nat)
    requires Joins(actions, i, tid) && tid < |Run(IDLE, actions[..i + 1]).threads|
    requires Leads(Run(IDLE, actions[..i + 1]), leader, KeyOf(Run(IDLE, actions[..i + 1]).threads[tid]))
    ensures Together(Run(IDLE, actions[..i + 1]), tid, leader, f)
  {
    var s' := Run(IDLE, actions[..i + 1]);
    RunNext(actions, i);
    RunKeeps(IDLE, actions[..i + 1]);
    InvThread(s', leader);
    InvThread(s', tid);
    f := s'.threads[leader].pc.flight;
    if tid != leader {
      if s'.threads[tid].pc.Leading? {
        OneLeader(s', tid, leader);
      }
    }
  }

  // ---------------------------------------------------------------- what compilations lead to

  /** Where a call stands once its compilation gave `result`. */
  predicate Tells(pc: Pc, result: LoadResult) {
    match pc
    case Leading(_, Publish(app)) => result == Ok(app)
    case Leading(_, Finish(r)) => result == r
    case Resumed(r) => result == r
    case Done(r, fast) => !fast && result == r
    case _ => false
  }

  /** An error comes from a compilation of the call that failed. */
  ghost predicate FailureTold(actions: seq<Action>, tid: nat, result: LoadResult) {
    result.Err? ==>
      result == Err(CompileFailed) && exists k: nat :: Compiles(actions, k, tid) && !actions[k].succeeds
  }

  ghost predicate CompilesTold(actions: seq<Action>, tid: nat) {
    var s := Run(IDLE, actions);
    forall k: nat :: Compiles(actions, k, tid) ==>
      tid < |s.threads| && Tells(s.threads[tid].pc, Outcome(actions, k))
  }

  ghost predicate FinishTold(actions: seq<Action>, tid: nat) {
    var s := Run(IDLE, actions);
    tid < |s.threads| && s.threads[tid].pc.Leading? && s.threads[tid].pc.phase.Finish? ==>
      FailureTold(actions, tid, s.threads[tid].pc.phase.result)
  }

  ghost predicate OutcomeTold(actions: seq<Action>, f: nat) {
    var s := Run(IDLE, actions);
    f < |s.flights| && s.flights[f].outcome.Some? ==>
      FailureTold(actions, s.flights[f].leader, s.flights[f].outcome.value)
  }

  lemma StepTells(s: State, action: Action, tid: nat, result: LoadResult)
    requires tid < |s.threads| && Tells(s.threads[tid].pc, result)
    ensures tid < |Step(s, action).threads| && Tells(Step(s, action).threads[tid].pc, result)
  {
    if !action.Call? {
      StepMoves(s, action);
    }
  }

  lemma CompileTells(s: State, action: Action)
    requires action.CompileBundle? && action.tid < |s.threads|
    requires s.threads[action.tid].pc.Leading? && s.threads[action.tid].pc.phase == Compile
    ensures action.tid < |Step(s, action).threads|
    ensures Tells(Step(s, action).threads[action.tid].pc,
                  if action.succeeds then Ok(|s.compiled|) else Err(CompileFailed))
  {
  }

  lemma FailureGrows(actions: seq<Action>, tid: nat, result: LoadResult)
    requires actions != [] && FailureTold(actions[..|actions| - 1], tid, result)
    ensures FailureTold(actions, tid, result)
  {
    var before := actions[..|actions| - 1];
    if result.Err? {
      var k: nat :| Compiles(before, k, tid) && !before[k].succeeds;
      assert before[..k] == actions[..k];
      assert Compiles(actions, k, tid);
    }
  }

  lemma EarlierIsTold(actions: seq<Action>, k: nat, tid: nat)
    requires Compiles(actions, k, tid) && k < |actions| - 1 && CompilesTold(actions[..|actions| - 1], tid)
    ensures var s := Run(IDLE, actions); tid < |s.threads| && Tells(s.threads[tid].pc, Outcome(actions, k))
  {
    var before := actions[..|actions| - 1];
    assert before[..k] == actions[..k];
    assert Compiles(before, k, tid);
    RunLast(actions);
    StepTells(Run(IDLE, before), actions[|actions| - 1], tid, Outcome(actions, k));
  }

  lemma LastIsTold(actions: seq<Action>, tid: nat)
    requires actions != [] && Compiles(actions, |actions| - 1, tid)
    ensures var s := Run(IDLE, actions);
            tid < |s.threads| && Tells(s.threads[tid].pc, Outcome(actions, |actions| - 1))
  {
    RunLast(actions);
    CompileTells(Run(IDLE, actions[..|actions| - 1]), actions[|actions| - 1]);
  }

  lemma {:induction false} CompilesAreTold(actions: seq<Action>, tid: nat)
    ensures CompilesTold(actions, tid)
  {
    forall k: nat | Compiles(actions, k, tid)
      ensures tid < |Run(IDLE, actions).threads| && Tells(Run(IDLE, actions).threads[tid].pc, Outcome(actions, k))
    {
      if k < |actions| - 1 {
        CompilesAreTold(actions[..|actions| - 1], tid);
        EarlierIsTold(actions, k, tid);
      } else {
        LastIsTold(actions, tid);
      }
    }
  }

  /** How a call comes to finish a flight with an error. */
  lemma FailedStep(s: State, action: Action, tid: nat)
    requires tid < |Step(s, action).threads| && EndsInError(Step(s, action).threads[tid].pc)
    ensures tid < |s.threads|
    ensures s.threads[tid].pc == Step(s, action).threads[tid].pc
            || (action == CompileBundle(tid, false)
                && s.threads[tid].pc.Leading? && s.threads[tid].pc.phase == Compile
                && Step(s, action).threads[tid].pc.phase.result == Err(CompileFailed))
  {
    match action
    case Call(_, _) =>
    case CompileBundle(_, _) =>
    case _ =>
      StepMoves(s, action);
      if tid == action.tid && Step(s, action) != s {
        OthersSucceed(s, action);
      }
  }

  predicate EndsInError(pc: Pc) {
    pc.Leading? && pc.phase.Finish? && pc.phase.result.Err?
  }

  lemma OthersSucceed(s: State, action: Action)
    requires !action.Call? && !action.CompileBundle? && action.tid < |s.threads| && Step(s, action) != s
    ensures !EndsInError(Step(s, action).threads[action.tid].pc)
  {
  }

  /** How a flight comes to its outcome. */
  lemma LandedStep(s: State, action: Action, f: nat)
    requires Inv(s) && f < |Step(s, action).flights| && Step(s, action).flights[f].outcome.Some?
    ensures var flight := Step(s, action).flights[f];
            && f < |s.flights| && flight.leader == s.flights[f].leader
            && (flight == s.flights[f]
                || (flight.leader < |s.threads| && s.threads[flight.leader].pc.Leading?
                    && s.threads[flight.leader].pc.phase == Finish(flight.outcome.value)))
  {
    if action.FinishFlight? {
      if action.tid < |s.threads| { InvThread(s, action.tid); }
    } else {
      OthersLandNothing(s, action, f);
    }
  }

  lemma OthersLandNothing(s: State, action: Action, f: nat)
    requires !action.FinishFlight? && f < |Step(s, action).flights| && Step(s, action).flights[f].outcome.Some?
    ensures f < |s.flights| && Step(s, action).flights[f] == s.flights[f]
  {
  }

  lemma {:induction false} FinishIsTold(actions: seq<Action>, tid: nat)
    ensures FinishTold(actions, tid)
  {
    var s' := Run(IDLE, actions);
    if actions != [] && tid < |s'.threads| && EndsInError(s'.threads[tid].pc) {
      var n := |actions| - 1;
      var result := s'.threads[tid].pc.phase.result;
      RunLast(actions);
      FailedStep(Run(IDLE, actions[..n]), actions[n], tid);
      if Run(IDLE, actions[..n]).threads[tid].pc == s'.threads[tid].pc {
        FinishIsTold(actions[..n], tid);
        FailureGrows(actions, tid, result);
      } else {
        assert Compiles(actions, n, tid);
      }
    }
  }

  lemma {:induction false} OutcomeIsTold(actions: seq<Action>, f: nat)
    ensures OutcomeTold(actions, f)
  {
    var s' := Run(IDLE, actions);
    if actions != [] && f < |s'.flights| && s'.flights[f].outcome.Some? {
      var n := |actions| - 1;
      RunLast(actions);
      RunKeeps(IDLE, actions[..n]);
      LandedStep(Run(IDLE, actions[..n]), actions[n], f);
      OutcomeIsTold(actions[..n], f);
      FinishIsTold(actions[..n], s'.flights[f].leader);
      FailureGrows(actions, s'.flights[f].leader, s'.flights[f].outcome.value);
    }
  }

  // ---------------------------------------------------------------- what a load returns

  /** Over all runs: a load that joined a flight returns what the leader of that flight returns. That is the App the
      leader compiled, if it compiled one; it is an error exactly when the leader tried to compile and failed. */
  lemma LoadReturnsItsFlight(actions: seq<Action>, i: nat, tid: nat, leader: nat)
    requires Joins(actions, i, tid) && tid < |Run(IDLE, actions[..i + 1]).threads|
    requires Leads(Run(IDLE, actions[..i + 1]), leader, KeyOf(Run(IDLE, actions[..i + 1]).threads[tid]))
    requires tid < |Run(IDLE, actions).threads| && Run(IDLE, actions).threads[tid].pc.Done?
    ensures var pc := Run(IDLE, actions).threads[tid].pc;
            && !pc.fast && Got(Run(IDLE, actions), leader, pc.result)
            && (pc.result.Err? <==> exists k: nat :: Compiles(actions, k, leader) && !actions[k].succeeds)
            && (pc.result.Err? ==> pc.result.error == CompileFailed)
            && (forall k: nat :: Compiles(actions, k, leader) && actions[k].succeeds ==>
                  pc.result == Ok(|Run(IDLE, actions[..k]).compiled|))
  {
    var f := JoinedTogether(actions, i, tid, leader);
    RunTogether(actions, i + 1, tid, leader, f);
    CompilesAreTold(actions, leader);
    OutcomeIsTold(actions, f);
  }

  /** The arguments that `Load` accepts. */
  predicate Accepted(t: Thread) {
    ProjectOf(t) != [] && t.bundle.hash != [] && t.bundle.hasFiles
  }

  /** A call past its checks has arguments that passed them; one that returned an error of its own did not. */
  predicate Checked(t: Thread) {
    match t.pc
    case Start => true
    case Done(Err(ProjectIDRequired), _) => ProjectOf(t) == []
    case Done(Err(HashRequired), _) => ProjectOf(t) != [] && t.bundle.hash == []
    case Done(Err(NoSourceFiles), _) => ProjectOf(t) != [] && t.bundle.hash != [] && !t.bundle.hasFiles
    case _ => Accepted(t)
  }

  predicate PcFailsToCompile(pc: Pc) {
    match pc
    case Leading(_, Finish(Err(error))) => error == CompileFailed
    case Resumed(Err(error)) => error == CompileFailed
    case _ => true
  }

  predicate ThreadChecked(t: Thread) {
    Checked(t) && PcFailsToCompile(t.pc)
  }

  ghost predicate AllChecked(s: State) {
    && (forall tid :: 0 <= tid < |s.threads| ==> ThreadChecked(s.threads[tid]))
    && (forall f :: 0 <= f < |s.flights| && s.flights[f].outcome.Some? && s.flights[f].outcome.value.Err? ==>
          s.flights[f].outcome.value.error == CompileFailed)
  }

  /** The call that takes a step. */
  lemma MoverChecked(s: State, action: Action)
    requires AllChecked(s) && !action.Call? && action.tid < |s.threads|
    ensures ThreadChecked(Step(s, action).threads[action.tid])
  {
    assert ThreadChecked(s.threads[action.tid]);
  }

  lemma StepChecked(s: State, action: Action)
    requires AllChecked(s)
    ensures AllChecked(Step(s, action))
  {
    var s' := Step(s, action);
    if !action.Call? {
      StepMoves(s, action);
      forall tid | 0 <= tid < |s'.threads| ensures ThreadChecked(s'.threads[tid]) {
        if tid == action.tid { MoverChecked(s, action); }
      }
    }
    if action.FinishFlight? && action.tid < |s.threads| {
      assert ThreadChecked(s.threads[action.tid]);
    }
  }

  lemma {:induction false} RunChecked(actions: seq<Action>)
    ensures AllChecked(Run(IDLE, actions))
  {
    if actions != [] {
      var n := |actions| - 1;
      RunChecked(actions[..n]);
      RunLast(actions);
      StepChecked(Run(IDLE, actions[..n]), actions[n]);
    }
  }

  /** A load is refused exactly for its first missing argument: the project id, the hash, the files. */
  lemma RefusedExactly(actions: seq<Action>, tid: nat)
    requires tid < |Run(IDLE, actions).threads| && Run(IDLE, actions).threads[tid].pc.Done?
    ensures var t := Run(IDLE, actions).threads[tid];
            && (t.pc.result == Err(ProjectIDRequired) <==> Trim(t.project) == [])
            && (t.pc.result == Err(HashRequired) <==> Trim(t.project) != [] && t.bundle.hash == [])
            && (t.pc.result == Err(NoSourceFiles)
                <==> Trim(t.project) != [] && t.bundle.hash != [] && !t.bundle.hasFiles)
  {
    RunChecked(actions);
    assert ThreadChecked(Run(IDLE, actions).threads[tid]);
  }

  // ---------------------------------------------------------------- who has joined

  /** The call is past joining a flight. */
  predicate HasJoined(pc: Pc) {
    || pc.Leading? || pc.Waiting? || pc.Resumed?
    || (pc.Done? && !pc.fast && (pc.result.Ok? || pc.result == Err(CompileFailed)))
  }

  lemma JoinStarts(s: State, action: Action, tid: nat)
    requires tid < |Step(s, action).threads| && HasJoined(Step(s, action).threads[tid].pc)
    ensures tid < |s.threads|
    ensures HasJoined(s.threads[tid].pc) || (action == Join(tid) && s.threads[tid].pc == Joining)
  {
    if !action.Call? {
      StepMoves(s, action);
      if action.tid == tid && Step(s, action) != s && !action.Join? {
        OthersHadJoined(s, action);
      }
    }
  }

  lemma OthersHadJoined(s: State, action: Action)
    requires !action.Call? && !action.Join? && action.tid < |s.threads| && Step(s, action) != s
    requires HasJoined(Step(s, action).threads[action.tid].pc)
    ensures HasJoined(s.threads[action.tid].pc)
  {
  }

  lemma {:induction false} JoinFound(actions: seq<Action>, tid: nat) returns (i: nat)
    requires tid < |Run(IDLE, actions).threads| && HasJoined(Run(IDLE, actions).threads[tid].pc)
    ensures Joins(actions, i, tid)
  {
    var n := |actions| - 1;
    var s := Run(IDLE, actions[..n]);
    RunLast(actions);
    JoinStarts(s, actions[n], tid);
    if HasJoined(s.threads[tid].pc) {
      i := JoinFound(actions[..n], tid);
      assert actions[..n][..i] == actions[..i];
    } else {
      i := n;
    }
  }

  /** Every load whose arguments are accepted and that the fast path did not answer joined a flight, which had exactly
      one leader then, and returned what that leader returned (`LoadReturnsItsFlight`). */
  lemma LoadJoinedAFlight(actions: seq<Action>, tid: nat) returns (i: nat, leader: nat)
    requires var s := Run(IDLE, actions);
             && tid < |s.threads| && s.threads[tid].pc.Done? && !s.threads[tid].pc.fast && Accepted(s.threads[tid])
    ensures Joins(actions, i, tid)
    ensures var s := Run(IDLE, actions[..i + 1]);
            && tid < |s.threads|
            && forall other: nat :: Leads(s, other, KeyOf(s.threads[tid])) <==> other == leader
    ensures Got(Run(IDLE, actions), leader, Run(IDLE, actions).threads[tid].pc.result)
  {
    RunChecked(actions);
    assert ThreadChecked(Run(IDLE, actions).threads[tid]);
    i := JoinFound(actions, tid);
    leader := JoinFindsLeader(actions, i, tid);
    LoadReturnsItsFlight(actions, i, tid, leader);
  }
}
