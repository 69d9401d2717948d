/** Whole runs of `Loader.Load` (pkg/projectbundle/bundle.go): any calls, any interleaving. */
module LoaderRuns {
  import opened Texts
  import opened Options
  import opened BundleLoader
  import opened LoaderInvariant

  /** The calls take steps in any order. */
  function Run(s: State, actions: seq<Action>): State
    decreases |actions|
  {
    if actions == [] then s else Run(Step(s, actions[0]), actions[1..])
  }

  lemma {:induction false} RunKeeps(s: State, actions: seq<Action>)
    requires Inv(s)
    ensures var s' := Run(s, actions);
            Inv(s') && Grows(s, s') && s.compiled <= s'.compiled && Settles(s, s')
    decreases |actions|
  {
    if actions != [] {
      StepInv(s, actions[0]);
      StepGrows(s, actions[0]);
      StepExtends(s, actions[0]);
      StepSettles(s, actions[0]);
      RunKeeps(Step(s, actions[0]), actions[1..]);
    }
  }

  /** Whatever the calls and their order, an identity is compiled successfully at most once. */
  lemma CompiledAtMostOnce(actions: seq<Action>, i: nat, j: nat)
    requires var compiled := Run(IDLE, actions).compiled;
             i < |compiled| && j < |compiled| && compiled[i] == compiled[j]
    ensures i == j
  {
    RunKeeps(IDLE, actions);
  }

  /** What an identity is published as never changes, however the run goes on, and stays the App that was
      compiled for that identity. */
  lemma PublishedForGood(before: seq<Action>, after: seq<Action>, key: Text)
    requires key in Run(IDLE, before).shared
    ensures var s, s' := Run(IDLE, before), Run(Run(IDLE, before), after);
            && Published(s', key, s.shared[key])
            && s'.shared[key] < |s'.compiled| && s'.compiled[s'.shared[key]] == key
  {
    RunKeeps(IDLE, before);
    RunKeeps(Run(IDLE, before), after);
  }

  /** Two loads that went past the fast path with the same identity, at whatever moments of the run and under
      whatever projects, return the same App: the one compiled for that identity. */
  lemma LoadsShareTheApp(actions: seq<Action>, tid: nat, other: nat)
    requires var threads := Run(IDLE, actions).threads;
             && tid < |threads| && other < |threads| && KeyOf(threads[tid]) == KeyOf(threads[other])
             && threads[tid].pc.Done? && threads[tid].pc.result.Ok? && !threads[tid].pc.fast
             && threads[other].pc.Done? && threads[other].pc.result.Ok? && !threads[other].pc.fast
    ensures var s := Run(IDLE, actions);
            && s.threads[tid].pc == s.threads[other].pc
            && Published(s, KeyOf(s.threads[tid]), s.threads[tid].pc.result.app)
            && s.threads[tid].pc.result.app < |s.compiled|
            && s.compiled[s.threads[tid].pc.result.app] == KeyOf(s.threads[tid])
  {
    RunKeeps(IDLE, actions);
    InvThread(Run(IDLE, actions), tid);
    InvThread(Run(IDLE, actions), other);
  }

  /** A load answered by the fast path, and a project's App at any moment, is an App compiled for the bundle
      hash of the call, or the hash recorded for the project. */
  lemma AppsHaveTheirHash(actions: seq<Action>)
    ensures var s := Run(IDLE, actions);
            && (forall tid: nat :: tid < |s.threads| && s.threads[tid].pc.Done? && s.threads[tid].pc.result.Ok? ==>
                  PublishedUnderHash(s, s.threads[tid].bundle.hash, s.threads[tid].pc.result.app))
            && (forall project :: project in s.apps ==>
                  PublishedUnderHash(s, s.apps[project].hash, s.apps[project].app))
  {
    RunKeeps(IDLE, actions);
    var s := Run(IDLE, actions);
    forall tid: nat | tid < |s.threads| && s.threads[tid].pc.Done? && s.threads[tid].pc.result.Ok?
      ensures PublishedUnderHash(s, s.threads[tid].bundle.hash, s.threads[tid].pc.result.app)
    {
      InvThread(s, tid);
      var t := s.threads[tid];
      if !t.pc.fast {
        assert Published(s, SharedKey(ModulePathOf(ProjectOf(t), t.bundle), t.bundle.hash), t.pc.result.app);
      }
    }
  }

  /** The step a call has before it. */
  function OwnNext(s: State, tid: nat): Action
    requires tid < |s.threads|
  {
    match s.threads[tid].pc
    case Start => FastPath(tid)
    case Joining => Join(tid)
    case Leading(_, CheckShared) => ReadShared(tid)
    case Leading(_, Compile) => CompileBundle(tid, true)
    case Leading(_, Publish(_)) => PublishApp(tid)
    case Leading(_, Finish(_)) => FinishFlight(tid)
    case Waiting(_) => Wake(tid)
    case Resumed(_) => StoreApp(tid)
    case Done(_, _) => StoreApp(tid)
  }

  /** The call that has to move for this one to go on: itself, or the leader of the flight it waits for. */
  function Mover(s: State, tid: nat): nat
    requires tid < |s.threads|
  {
    var pc := s.threads[tid].pc;
    if pc.Waiting? && pc.awaited < |s.flights| && s.flights[pc.awaited].outcome.None?
    then s.flights[pc.awaited].leader else tid
  }

  lemma LeaderAdvances(s: State, tid: nat)
    requires Inv(s) && tid < |s.threads| && s.threads[tid].pc.Leading?
    ensures Step(s, OwnNext(s, tid)).threads[tid].pc != s.threads[tid].pc
  {
    InvThread(s, tid);
  }

  lemma CallerAdvances(s: State, tid: nat)
    requires tid < |s.threads| && !s.threads[tid].pc.Done? && !s.threads[tid].pc.Leading?
    requires var pc := s.threads[tid].pc;
             pc.Waiting? ==> pc.awaited < |s.flights| && s.flights[pc.awaited].outcome.Some?
    ensures Step(s, OwnNext(s, tid)).threads[tid].pc != s.threads[tid].pc
  {
  }

  lemma MoverIsAbleTo(s: State, tid: nat)
    requires Inv(s) && tid < |s.threads| && !s.threads[tid].pc.Done?
    ensures var mover := Mover(s, tid);
            && mover < |s.threads|
            && (s.threads[mover].pc.Leading? || mover == tid)
            && (mover == tid && s.threads[tid].pc.Waiting? ==>
                  s.threads[tid].pc.awaited < |s.flights| && s.flights[s.threads[tid].pc.awaited].outcome.Some?)
  {
    InvThread(s, tid);
    var pc := s.threads[tid].pc;
    if pc.Waiting? {
      assert FlightInv(s, pc.awaited);
    }
  }

  /** No call is ever stuck: a call that has not returned can take a step, or waits for a flight whose leader
      can take one. */
  lemma NoCallIsStuck(actions: seq<Action>, tid: nat)
    requires tid < |Run(IDLE, actions).threads| && !Run(IDLE, actions).threads[tid].pc.Done?
    ensures var s := Run(IDLE, actions);
            var mover := Mover(s, tid);
            && mover < |s.threads| && (mover == tid || s.threads[mover].pc.Leading?)
            && Step(s, OwnNext(s, mover)) != s
  {
    var s := Run(IDLE, actions);
    RunKeeps(IDLE, actions);
    MoverIsAbleTo(s, tid);
    var mover := Mover(s, tid);
    if s.threads[mover].pc.Leading? {
      LeaderAdvances(s, mover);
    } else {
      CallerAdvances(s, tid);
    }
  }

  lemma {:induction false} LeftDrops(threads: seq<Thread>, tid: nat, t: Thread)
    requires tid < |threads| && Left(t.pc) < Left(threads[tid].pc)
    ensures LeftOf(threads[tid := t]) < LeftOf(threads)
    decreases |threads|
  {
    var changed := threads[tid := t];
    if tid == 0 {
      assert changed[1..] == threads[1..];
    } else {
      assert changed[1..] == threads[1..][tid - 1 := t];
      LeftDrops(threads[1..], tid - 1, t);
    }
  }

  /** Every step that changes anything brings the calls nearer their end. */
  lemma StepsRunOut(s: State, action: Action)
    requires !action.Call? && Step(s, action) != s
    ensures LeftOf(Step(s, action).threads) < LeftOf(s.threads)
  {
    StepMoves(s, action);
    var s' := Step(s, action);
    var pc :| Progresses(s, s', action.tid, pc);
    LeftDrops(s.threads, action.tid, s.threads[action.tid].(pc := pc));
  }

  /** Steps without new calls, each of which changes something. */
  predicate Effective(s: State, actions: seq<Action>)
    decreases |actions|
  {
    actions == []
    || (!actions[0].Call? && Step(s, actions[0]) != s && Effective(Step(s, actions[0]), actions[1..]))
  }

  lemma {:induction false} EffectiveStepsAreFew(s: State, actions: seq<Action>)
    requires Effective(s, actions)
    ensures |actions| + LeftOf(Run(s, actions).threads) <= LeftOf(s.threads)
    decreases |actions|
  {
    if actions != [] {
      StepsRunOut(s, actions[0]);
      EffectiveStepsAreFew(Step(s, actions[0]), actions[1..]);
    }
  }

  /** No call can go on. */
  ghost predicate Quiet(s: State) {
    forall action: Action :: !action.Call? ==> Step(s, action) == s
  }

  predicate AllReturned(s: State) {
    forall tid: nat :: tid < |s.threads| ==> s.threads[tid].pc.Done?
  }

  lemma QuietMeansReturned(actions: seq<Action>)
    requires Quiet(Run(IDLE, actions))
    ensures AllReturned(Run(IDLE, actions))
  {
    var s := Run(IDLE, actions);
    forall tid: nat | tid < |s.threads| ensures s.threads[tid].pc.Done? {
      if !s.threads[tid].pc.Done? {
        NoCallIsStuck(actions, tid);
        assert false;
      }
    }
  }

  lemma ReturnedMeansQuiet(s: State)
    requires AllReturned(s)
    ensures Quiet(s)
  {
    forall action: Action | !action.Call? ensures Step(s, action) == s {
      StepMoves(s, action);
    }
  }

  /** Every load returns: without new calls a run goes on for at most `LeftOf` steps, in whatever order they are
      taken, and where it can go on no longer every call has returned. */
  lemma EveryLoadReturns(actions: seq<Action>, more: seq<Action>)
    requires Effective(Run(IDLE, actions), more)
    ensures |more| <= LeftOf(Run(IDLE, actions).threads)
    ensures Quiet(Run(IDLE, actions + more)) <==> AllReturned(Run(IDLE, actions + more))
  {
    EffectiveStepsAreFew(Run(IDLE, actions), more);
    if Quiet(Run(IDLE, actions + more)) {
      QuietMeansReturned(actions + more);
    }
    if AllReturned(Run(IDLE, actions + more)) {
      ReturnedMeansQuiet(Run(IDLE, actions + more));
    }
  }

  // ---------------------------------------------------------------- what a key says

  lemma {:induction false} SafeKept(safe: Text, after: Text)
    requires forall c :: c in safe ==> SafeUnit(c)
    ensures ReplaceUnsafe(safe + after, false) == safe + ReplaceUnsafe(after, false)
  {
    if safe == [] {
      assert safe + after == after;
    } else {
      assert (safe + after)[1..] == safe[1..] + after;
      assert forall c :: c in safe[1..] ==> c in safe;
      SafeKept(safe[1..], after);
    }
  }

  lemma {:induction false} RunDropped(unsafe: Text, after: Text)
    requires forall c :: c in unsafe ==> !SafeUnit(c)
    requires after != [] ==> SafeUnit(after[0])
    ensures ReplaceUnsafe(unsafe + after, true) == ReplaceUnsafe(after, false)
  {
    if unsafe == [] {
      assert unsafe + after == after;
    } else {
      assert (unsafe + after)[1..] == unsafe[1..] + after;
      assert forall c :: c in unsafe[1..] ==> c in unsafe;
      RunDropped(unsafe[1..], after);
    }
  }

  lemma RunReplaced(unsafe: Text, after: Text)
    requires unsafe != [] && forall c :: c in unsafe ==> !SafeUnit(c)
    requires after != [] ==> SafeUnit(after[0])
    ensures ReplaceUnsafe(unsafe + after, false) == [45] + ReplaceUnsafe(after, false)
  {
    assert (unsafe + after)[1..] == unsafe[1..] + after;
    assert forall c :: c in unsafe[1..] ==> c in unsafe;
    RunDropped(unsafe[1..], after);
  }

  /** A project id keeps its safe characters; each longest run of others becomes one `-`. */
  lemma SanitizeRun(before: Text, unsafe: Text, after: Text)
    requires forall c :: c in before ==> SafeUnit(c)
    requires unsafe != [] && forall c :: c in unsafe ==> !SafeUnit(c)
    requires after != [] ==> SafeUnit(after[0])
    ensures ReplaceUnsafe(before, false) == before
    ensures ReplaceUnsafe(before + (unsafe + after), false) == before + ([45] + ReplaceUnsafe(after, false))
  {
    assert before + [] == before;
    SafeKept(before, []);
    SafeKept(before, unsafe + after);
    RunReplaced(unsafe, after);
  }

  /** Two identities share a key exactly when they are the same, or one module path is the other followed by
      U+0000 and a text with which the hash of that other begins, up to its own U+0000. */
  lemma SharedKeyCollision(modulePath: Text, hash: Text, otherPath: Text, otherHash: Text)
    ensures SharedKey(modulePath, hash) == SharedKey(otherPath, otherHash) <==>
            || (modulePath == otherPath && hash == otherHash)
            || Overlaps(modulePath, hash, otherPath, otherHash)
            || Overlaps(otherPath, otherHash, modulePath, hash)
  {
    var l, r := SharedKey(modulePath, hash), SharedKey(otherPath, otherHash);
    assert l[..|modulePath|] == modulePath && l[|modulePath| + 1..] == hash && l[|modulePath|] == NUL;
    assert r[..|otherPath|] == otherPath && r[|otherPath| + 1..] == otherHash && r[|otherPath|] == NUL;
    if l == r {
      if |modulePath| < |otherPath| {
        OverlapFound(modulePath, hash, otherPath, otherHash);
      } else if |otherPath| < |modulePath| {
        OverlapFound(otherPath, otherHash, modulePath, hash);
      }
    }
  }

  /** `longer` is `shorter`, U+0000 and `x`; `hash` is `x`, U+0000 and `otherHash`. */
  predicate Overlaps(shorter: Text, hash: Text, longer: Text, otherHash: Text) {
    && |shorter| < |longer| && shorter + [NUL] <= longer
    && hash == longer[|shorter| + 1..] + [NUL] + otherHash
  }

  lemma OverlapFound(shorter: Text, hash: Text, longer: Text, otherHash: Text)
    requires SharedKey(shorter, hash) == SharedKey(longer, otherHash) && |shorter| < |longer|
    ensures Overlaps(shorter, hash, longer, otherHash)
  {
    var l, r := SharedKey(shorter, hash), SharedKey(longer, otherHash);
    var n := |shorter| + 1;
    assert l[..n] == shorter + [NUL] && r[..n] == longer[..n];
    assert l[n..] == hash && r[n..] == longer[n..] + [NUL] + otherHash;
  }

  /** For hashes without U+0000, such as hexadecimal digests, the key says both the module path and the hash. */
  lemma SharedKeyInjective(modulePath: Text, hash: Text, otherPath: Text, otherHash: Text)
    requires NUL !in hash && NUL !in otherHash
    requires SharedKey(modulePath, hash) == SharedKey(otherPath, otherHash)
    ensures modulePath == otherPath && hash == otherHash
  {
    SplitAtLast(modulePath, otherPath, hash, otherHash, NUL);
  }
}
