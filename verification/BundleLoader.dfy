/** `Loader.Load` (pkg/projectbundle/bundle.go) under concurrent calls. Each section under a lock is one
    step, as are the steps of the single-flight group: joining it, finishing a flight, waking up. Compiling is
    an abstract step that succeeds with a new App or fails. */
module BundleLoader {
  import opened Options
  import opened Texts

  /** Apps are told apart by the order in which they were compiled. */
  type App = nat

  datatype Bundle = Bundle(modulePath: Text, hash: Text, hasFiles: bool)

  datatype LoadError = ProjectIDRequired | HashRequired | NoSourceFiles | CompileFailed

  datatype LoadResult = Ok(app: App) | Err(error: LoadError)

  datatype Loaded = Loaded(hash: Text, app: App)

  /** Where the leader of a flight stands. */
  datatype Phase = CheckShared | Compile | Publish(app: App) | Finish(result: LoadResult)

  datatype Pc =
    | Start
    | Joining
    | Leading(flight: nat, phase: Phase)
    | Waiting(awaited: nat)
    | Resumed(result: LoadResult)
    | Done(result: LoadResult, fast: bool)

  datatype Thread = Thread(project: Text, bundle: Bundle, pc: Pc)

  datatype Flight = Flight(key: Text, leader: nat, outcome: Option<LoadResult>)

  datatype State = State(
    apps: map<Text, Loaded>,
    shared: map<Text, App>,
    active: map<Text, nat>,
    flights: seq<Flight>,
    threads: seq<Thread>,
    /** The key of every successful compilation; the App compiled n-th is n. */
    compiled: seq<Text>)

  datatype Action =
    | Call(project: Text, bundle: Bundle)
    | FastPath(tid: nat)
    | Join(tid: nat)
    | ReadShared(tid: nat)
    | CompileBundle(tid: nat, succeeds: bool)
    | PublishApp(tid: nat)
    | FinishFlight(tid: nat)
    | Wake(tid: nat)
    | StoreApp(tid: nat)

  const IDLE := State(map[], map[], map[], [], [], [])

  // ---------------------------------------------------------------- keys

  predicate SafeUnit(c: CodeUnit) {
    97 <= c <= 122 || 65 <= c <= 90 || 48 <= c <= 57 || c == 46 || c == 95 || c == 45
  }

  /** Every run of other characters becomes one `-`. */
  function ReplaceUnsafe(s: Text, inRun: bool): Text {
    if s == [] then []
    else if SafeUnit(s[0]) then [s[0]] + ReplaceUnsafe(s[1..], false)
    else (if inRun then [] else [45]) + ReplaceUnsafe(s[1..], true)
  }

  const PROJECT: Text := [112, 114, 111, 106, 101, 99, 116]
  const APP_PREFIX: Text := [103, 111, 110, 118, 101, 120, 97, 112, 112, 47]

  function SanitizeProjectID(project: Text): Text {
    if Trim(project) == [] then PROJECT else ReplaceUnsafe(Trim(project), false)
  }

  function ModulePathOf(project: Text, bundle: Bundle): Text {
    if Trim(bundle.modulePath) == [] then APP_PREFIX + SanitizeProjectID(project) else Trim(bundle.modulePath)
  }

  function SharedKey(modulePath: Text, hash: Text): Text {
    modulePath + [NUL] + hash
  }

  function ProjectOf(t: Thread): Text {
    Trim(t.project)
  }

  /** The plugin identity a call asks for. */
  function KeyOf(t: Thread): Text {
    SharedKey(ModulePathOf(ProjectOf(t), t.bundle), t.bundle.hash)
  }

  // ---------------------------------------------------------------- steps

  function At(s: State, tid: nat): Option<Pc> {
    if tid < |s.threads| then Some(s.threads[tid].pc) else None
  }

  function Moved(s: State, tid: nat, pc: Pc): State
    requires tid < |s.threads|
  {
    s.(threads := s.threads[tid := s.threads[tid].(pc := pc)])
  }

  function FastPathStep(s: State, tid: nat): State
    requires tid < |s.threads|
  {
    var t := s.threads[tid];
    var project := ProjectOf(t);
    if project == [] then Moved(s, tid, Done(Err(ProjectIDRequired), false))
    else if t.bundle.hash == [] then Moved(s, tid, Done(Err(HashRequired), false))
    else if !t.bundle.hasFiles then Moved(s, tid, Done(Err(NoSourceFiles), false))
    else if project in s.apps && s.apps[project].hash == t.bundle.hash then
      Moved(s, tid, Done(Ok(s.apps[project].app), true))
    else Moved(s, tid, Joining)
  }

  function JoinStep(s: State, tid: nat): State
    requires tid < |s.threads|
  {
    var key := KeyOf(s.threads[tid]);
    if key in s.active then Moved(s, tid, Waiting(s.active[key]))
    else
      var flight := |s.flights|;
      Moved(s, tid, Leading(flight, CheckShared))
        .(active := s.active[key := flight], flights := s.flights + [Flight(key, tid, None)])
  }

  /** A step that is not enabled changes nothing. */
  function Step(s: State, action: Action): State {
    match action
    case Call(project, bundle) => s.(threads := s.threads + [Thread(project, bundle, Start)])
    case FastPath(tid) => if At(s, tid) == Some(Start) then FastPathStep(s, tid) else s
    case Join(tid) => if At(s, tid) == Some(Joining) then JoinStep(s, tid) else s
    case ReadShared(tid) =>
      (match At(s, tid)
       case Some(Leading(flight, CheckShared)) =>
         var key := KeyOf(s.threads[tid]);
         Moved(s, tid, Leading(flight, if key in s.shared then Finish(Ok(s.shared[key])) else Compile))
       case _ => s)
    case CompileBundle(tid, succeeds) =>
      (match At(s, tid)
       case Some(Leading(flight, Compile)) =>
         if !succeeds then Moved(s, tid, Leading(flight, Finish(Err(CompileFailed))))
         else
           Moved(s, tid, Leading(flight, Publish(|s.compiled|)))
             .(compiled := s.compiled + [KeyOf(s.threads[tid])])
       case _ => s)
    case PublishApp(tid) =>
      (match At(s, tid)
       case Some(Leading(flight, Publish(app))) =>
         Moved(s, tid, Leading(flight, Finish(Ok(app)))).(shared := s.shared[KeyOf(s.threads[tid]) := app])
       case _ => s)
    case FinishFlight(tid) =>
      (match At(s, tid)
       case Some(Leading(flight, Finish(result))) =>
         if flight >= |s.flights| then s
         else
           Moved(s, tid, Resumed(result))
             .(active := s.active - {KeyOf(s.threads[tid])},
               flights := s.flights[flight := s.flights[flight].(outcome := Some(result))])
       case _ => s)
    case Wake(tid) =>
      (match At(s, tid)
       case Some(Waiting(flight)) =>
         if flight < |s.flights| && s.flights[flight].outcome.Some?
         then Moved(s, tid, Resumed(s.flights[flight].outcome.value)) else s
       case _ => s)
    case StoreApp(tid) =>
      (match At(s, tid)
       case Some(Resumed(Err(error))) => Moved(s, tid, Done(Err(error), false))
       case Some(Resumed(Ok(app))) =>
         var t := s.threads[tid];
         Moved(s, tid, Done(Ok(app), false)).(apps := s.apps[ProjectOf(t) := Loaded(t.bundle.hash, app)])
       case _ => s)
  }

  /** `AppForProject` */
  function AppForProject(s: State, project: Text): Option<App> {
    if project != [] && project in s.apps then Some(s.apps[project].app) else None
  }

  // ---------------------------------------------------------------- what every step keeps

  /** The App is published under `key`. */
  predicate Published(s: State, key: Text, app: App) {
    key in s.shared && s.shared[key] == app
  }

  /** The App is published under some key with this bundle hash. */
  ghost predicate PublishedUnderHash(s: State, hash: Text, app: App) {
    exists modulePath :: Published(s, SharedKey(modulePath, hash), app)
  }

  /** What a result says about the shared table. */
  predicate ResultPublished(s: State, key: Text, result: LoadResult) {
    result.Ok? ==> Published(s, key, result.app)
  }

  /** One call, where it stands. */
  ghost predicate ThreadInv(s: State, tid: nat)
    requires tid < |s.threads|
  {
    var t := s.threads[tid];
    var key := KeyOf(t);
    match t.pc
    case Start => true
    case Joining => true
    case Leading(flight, phase) =>
      && flight < |s.flights| && s.flights[flight] == Flight(key, tid, None)
      && key in s.active && s.active[key] == flight
      && (match phase
          case CheckShared => true
          case Compile => key !in s.shared && key !in s.compiled
          case Publish(app) => key !in s.shared && app < |s.compiled| && s.compiled[app] == key
          case Finish(result) => ResultPublished(s, key, result))
    case Waiting(flight) => flight < |s.flights| && s.flights[flight].key == key
    case Resumed(result) => ResultPublished(s, key, result)
    case Done(result, fast) =>
      if fast then result.Ok? && PublishedUnderHash(s, t.bundle.hash, result.app)
      else ResultPublished(s, key, result)
  }

  ghost predicate FlightInv(s: State, f: nat)
    requires f < |s.flights|
  {
    var flight := s.flights[f];
    match flight.outcome
    case Some(result) => ResultPublished(s, flight.key, result)
    case None =>
      && flight.leader < |s.threads| && s.threads[flight.leader].pc.Leading?
      && s.threads[flight.leader].pc.flight == f
  }

  /** A compiled App is published, or about to be by the call that leads the flight of its key. */
  ghost predicate CompiledInv(s: State, app: App)
    requires app < |s.compiled|
  {
    var key := s.compiled[app];
    || Published(s, key, app)
    || (key in s.active && s.active[key] < |s.flights|
        && s.flights[s.active[key]].leader < |s.threads|
        && s.threads[s.flights[s.active[key]].leader].pc == Leading(s.active[key], Publish(app)))
  }

  ghost predicate Inv(s: State) {
    && (forall tid: nat :: tid < |s.threads| ==> ThreadInv(s, tid))
    && (forall f: nat :: f < |s.flights| ==> FlightInv(s, f))
    && (forall app: nat :: app < |s.compiled| ==> CompiledInv(s, app))
    && (forall key :: key in s.shared ==> s.shared[key] < |s.compiled| && s.compiled[s.shared[key]] == key)
    && (forall key :: key in s.active ==>
          s.active[key] < |s.flights| && s.flights[s.active[key]].key == key
          && s.flights[s.active[key]].outcome.None?)
    && (forall i, j :: 0 <= i < j < |s.compiled| ==> s.compiled[i] != s.compiled[j])
    && (forall project :: project in s.apps ==>
          PublishedUnderHash(s, s.apps[project].hash, s.apps[project].app))
  }

  /** What has been published stays as it is. */
  ghost predicate Grows(s: State, s': State) {
    forall key :: key in s.shared ==> key in s'.shared && s'.shared[key] == s.shared[key]
  }

  /** Calls keep their place and their arguments, and a finished call keeps its result. */
  ghost predicate Settles(s: State, s': State) {
    && |s.threads| <= |s'.threads|
    && (forall tid :: 0 <= tid < |s.threads| ==>
          && s'.threads[tid].project == s.threads[tid].project
          && s'.threads[tid].bundle == s.threads[tid].bundle
          && (s.threads[tid].pc.Done? ==> s'.threads[tid].pc == s.threads[tid].pc))
  }

  // ---------------------------------------------------------------- how far a call has come

  ghost predicate Progresses(s: State, s': State, tid: nat, pc: Pc) {
    && tid < |s.threads| && Left(pc) < Left(s.threads[tid].pc)
    && s'.threads == s.threads[tid := s.threads[tid].(pc := pc)]
  }

  /** A bound on the steps a call still has before it. */
  function Left(pc: Pc): nat {
    match pc
    case Start => 7
    case Joining => 6
    case Leading(_, CheckShared) => 5
    case Leading(_, Compile) => 4
    case Leading(_, Publish(_)) => 3
    case Leading(_, Finish(_)) => 2
    case Waiting(_) => 2
    case Resumed(_) => 1
    case Done(_, _) => 0
  }

  function LeftOf(threads: seq<Thread>): nat {
    if threads == [] then 0 else Left(threads[0].pc) + LeftOf(threads[1..])
  }
}
