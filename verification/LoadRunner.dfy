/** Load scheduling (cmd/gonvex-load/runner.go), with exact numbers for rates and times. */
module LoadRunner {
  import opened Numbers
  import opened Texts

  // How connections are dealt to users, how the requested mutation rate is split over them, and how a writer keeps
  // to its share.

  datatype Spec = Spec(path: Text, ratePerMinute: real, ratePerUserPerMinute: real, activeUsers: real)

  datatype Config = Config(
    users: int, connections: int, mutationRate: real, mutationPath: Text, mutations: seq<Spec>)

  datatype Plan = Plan(userIndex: nat, connectionIndex: nat)

  datatype Schedule = Schedule(path: Text, interval: real, next: real)

  /** A phase of a schedule, in parts of its interval. */
  type Phase = x: int | 0 <= x < PHASE_PARTS witness 0

  const PHASE_PARTS := 10000

  /** Durations are counted in nanoseconds. */
  const SECOND := 1000000000.0

  /** `validateRunConfig` and the checks on a profile's mutations. */
  ghost predicate Validated(config: Config) {
    && 1 <= config.users <= config.connections && config.mutationRate >= 0.0
    && forall j :: 0 <= j < |config.mutations| ==> ValidSpec(config.mutations[j])
  }

  predicate ValidSpec(spec: Spec) {
    spec.ratePerMinute >= 0.0 && spec.ratePerUserPerMinute >= 0.0 && 0.0 < spec.activeUsers <= 1.0
  }

  /** `math.Round`: halves go away from zero. */
  function Round(x: real): int {
    if x >= 0.0 then (x + 0.5).Floor else -(0.5 - x).Floor
  }

  function ActiveUserCount(users: int, fraction: real): int {
    Round(users as real * fraction)
  }

  lemma ActiveUserCountRange(users: int, fraction: real)
    requires users >= 1 && 0.0 < fraction <= 1.0
    ensures 0 <= ActiveUserCount(users, fraction) <= users
  {
    var x := users as real * fraction;
    assert x >= 0.0;
    assert x <= users as real * 1.0;
  }

  // ---------------------------------------------------------------- dealing connections to users

  lemma DealtNext(index: nat, users: nat)
    requires users >= 1
    ensures if index % users == users - 1
            then (index + 1) / users == index / users + 1 && (index + 1) % users == 0
            else (index + 1) / users == index / users && (index + 1) % users == index % users + 1
  {
    var q, r := index / users, index % users;
    assert index == q * users + r;
    if r == users - 1 {
      assert index + 1 == (q + 1) * users;
      DivMod(index + 1, users, q + 1, 0);
    } else {
      DivMod(index + 1, users, q, r + 1);
    }
  }

  lemma DivMod(n: nat, d: nat, q: nat, r: nat)
    requires d >= 1 && n == q * d + r && r < d
    ensures n / d == q && n % d == r
  {
    QuotientIsUnique(n / d, n % d, q, r, d);
  }

  lemma QuotientIsUnique(q: nat, r: nat, p: nat, t: nat, d: nat)
    requires r < d && t < d && q * d + r == p * d + t
    ensures q == p && r == t
  {
    if q < p {
      OneMoreTimes(q, p, d);
    } else if p < q {
      OneMoreTimes(p, q, d);
    }
  }

  lemma OneMoreTimes(q: nat, p: nat, d: nat)
    requires q < p
    ensures q * d + d <= p * d
  {
    assert p * d == q * d + d + (p - q - 1) * d;
    assert (p - q - 1) * d >= 0;
  }

  /** Plan `i` is the connection `i / users` of user `i % users`. */
  method MakeSessionPlans(users: nat, connections: nat) returns (plans: seq<Plan>)
    requires users >= 1
    ensures |plans| == connections
    ensures forall i :: 0 <= i < connections ==> plans[i] == Plan(i % users, i / users)
  {
    plans := [];
    var connectionsByUser := seq(users, _ => 0);
    ghost var round, turn := 0, 0;
    DivMod(0, users, 0, 0);
    for index := 0 to connections
      invariant round == index / users && turn == index % users
      invariant |plans| == index && |connectionsByUser| == users
      invariant forall i :: 0 <= i < index ==> plans[i] == Plan(i % users, i / users)
      invariant forall u :: 0 <= u < users ==> connectionsByUser[u] == if u < turn then round + 1 else round
    {
      var userIndex := index % users;
      plans := plans + [Plan(userIndex, connectionsByUser[userIndex])];
      connectionsByUser := connectionsByUser[userIndex := connectionsByUser[userIndex] + 1];
      DealtNext(index, users);
      if turn == users - 1 { round, turn := round + 1, 0; } else { turn := turn + 1; }
    }
  }

  function PlanAt(config: Config, i: nat): Plan
    requires config.users >= 1
  {
    Plan(i % config.users, i / config.users)
  }

  /** Every user has exactly one connection for each index it reaches, so exactly one with index 0. */
  lemma OnePlanPerConnection(config: Config, i: nat, user: nat, connection: nat)
    requires config.users >= 1 && user < config.users
    ensures PlanAt(config, i) == Plan(user, connection) <==> i == connection * config.users + user
  {
    if i == connection * config.users + user {
      DivMod(i, config.users, connection, user);
    }
  }

  // ---------------------------------------------------------------- splitting the rate

  function ConnectionHasMutations(config: Config, plan: Plan): bool {
    config.mutationRate > 0.0 || (plan.connectionIndex == 0 && |config.mutations| > 0)
  }

  /** The share of one user in one mutation of the profile. */
  function UserRate(config: Config, spec: Spec, user: nat): real
    requires config.users >= 1
  {
    spec.ratePerMinute / 60.0 / config.users as real
    + if user < ActiveUserCount(config.users, spec.activeUsers) then spec.ratePerUserPerMinute / 60.0 else 0.0
  }

  /** What one connection sends of one mutation: how often, and when in its interval it begins. */
  datatype Share = Share(path: Text, rate: real, phase: Phase)

  /** Every connection has an equal share of the overall rate. */
  function BaseShares(config: Config): seq<Share>
    requires config.connections >= 1
  {
    if config.mutationRate > 0.0
    then [Share(config.mutationPath, config.mutationRate / config.connections as real, 0)] else []
  }

  /** The shares of one user in the mutations, in order. */
  function RatesOfUser(config: Config, user: nat): seq<real>
    requires config.users >= 1
  {
    seq(|config.mutations|, j requires 0 <= j < |config.mutations| => UserRate(config, config.mutations[j], user))
  }

  /** One share, or none when the user has no part in the mutation. */
  function SpecShares(path: Text, rate: real, phase: Phase): seq<Share> {
    if rate <= 0.0 then [] else [Share(path, rate, phase)]
  }

  /** The shares in the first `n` mutations. */
  function ProfileShares(specs: seq<Spec>, rates: seq<real>, user: nat, phases: (nat, nat) -> Phase, n: nat)
    : seq<Share>
    requires n <= |specs| == |rates|
  {
    if n == 0 then []
    else
      ProfileShares(specs, rates, user, phases, n - 1) + SpecShares(specs[n - 1].path, rates[n - 1], phases(n - 1, user))
  }

  function UserShares(config: Config, user: nat, phases: (nat, nat) -> Phase, n: nat): seq<Share>
    requires config.users >= 1 && n <= |config.mutations|
  {
    ProfileShares(config.mutations, RatesOfUser(config, user), user, phases, n)
  }

  /** The profile's mutations belong to the first connection of a user. */
  function PlanShares(config: Config, plan: Plan, phases: (nat, nat) -> Phase): seq<Share>
    requires config.users >= 1 && config.connections >= 1
  {
    BaseShares(config)
    + if plan.connectionIndex != 0 then [] else UserShares(config, plan.userIndex, phases, |config.mutations|)
  }

  function ScheduleOf(share: Share, now: real): Schedule {
    if share.rate == 0.0 then Schedule(share.path, 0.0, now)
    else
      var interval := SECOND / share.rate;
      Schedule(share.path, interval, now + interval * share.phase as real / PHASE_PARTS as real)
  }

  function SchedulesOf(shares: seq<Share>, now: real): seq<Schedule> {
    seq(|shares|, i requires 0 <= i < |shares| => ScheduleOf(shares[i], now))
  }

  /** `deterministicIndex` gives the phases: any function of the mutation's index and the user. */
  method MutationSchedules(config: Config, plan: Plan, now: real, phases: (nat, nat) -> Phase)
    returns (schedules: seq<Schedule>)
    requires config.users >= 1 && config.connections >= 1
    ensures schedules == SchedulesOf(PlanShares(config, plan, phases), now)
  {
    schedules := BaseSchedules(config, now);
    if plan.connectionIndex != 0 {
      assert BaseShares(config) + [] == BaseShares(config);
      return;
    }
    schedules := ProfileSchedules(config, plan.userIndex, now, phases, schedules);
  }

  /** The loop over the profile's mutations, behind what there is. */
  method ProfileSchedules(config: Config, user: nat, now: real, phases: (nat, nat) -> Phase, given: seq<Schedule>)
    returns (schedules: seq<Schedule>)
    requires config.users >= 1 && config.connections >= 1 && given == SchedulesOf(BaseShares(config), now)
    ensures schedules
         == SchedulesOf(BaseShares(config) + UserShares(config, user, phases, |config.mutations|), now)
  {
    schedules := given;
    ghost var base := BaseShares(config);
    ghost var shares := base;
    assert base + [] == base;
    for index := 0 to |config.mutations|
      invariant shares == base + UserShares(config, user, phases, index)
      invariant schedules == SchedulesOf(shares, now)
    {
      UserSharesMore(config, user, phases, index, base);
      var rate := ShareOfUser(config, config.mutations[index], user);
      if rate > 0.0 {
        schedules := AppendSchedule(schedules, config.mutations[index].path, rate, now, phases(index, user), shares);
        shares := shares + [Share(config.mutations[index].path, rate, phases(index, user))];
      }
    }
  }

  lemma UserSharesMore(config: Config, user: nat, phases: (nat, nat) -> Phase, n: nat, base: seq<Share>)
    requires config.users >= 1 && n < |config.mutations|
    ensures var spec, shares := config.mutations[n], base + UserShares(config, user, phases, n);
            base + UserShares(config, user, phases, n + 1)
            == if UserRate(config, spec, user) <= 0.0 then shares
               else shares + [Share(spec.path, UserRate(config, spec, user), phases(n, user))]
  {
  }

  method BaseSchedules(config: Config, now: real) returns (schedules: seq<Schedule>)
    requires config.connections >= 1
    ensures schedules == SchedulesOf(BaseShares(config), now)
  {
    schedules := [];
    if config.mutationRate > 0.0 {
      var rate := config.mutationRate / config.connections as real;
      schedules := AppendSchedule(schedules, config.mutationPath, rate, now, 0, []);
      assert [] + [Share(config.mutationPath, rate, 0)] == BaseShares(config);
    }
  }

  method ShareOfUser(config: Config, spec: Spec, user: nat) returns (rate: real)
    requires config.users >= 1
    ensures rate == UserRate(config, spec, user)
  {
    rate := spec.ratePerMinute / 60.0 / config.users as real;
    if user < ActiveUserCount(config.users, spec.activeUsers) {
      rate := rate + spec.ratePerUserPerMinute / 60.0;
    }
  }

  method AppendSchedule(given: seq<Schedule>, path: Text, rate: real, now: real, phase: Phase,
                        ghost shares: seq<Share>) returns (schedules: seq<Schedule>)
    requires rate > 0.0 && given == SchedulesOf(shares, now)
    ensures schedules == SchedulesOf(shares + [Share(path, rate, phase)], now)
  {
    var interval := SECOND / rate;
    var next := now + interval * phase as real / PHASE_PARTS as real;
    assert ScheduleOf(Share(path, rate, phase), now) == Schedule(path, interval, next);
    schedules := given + [Schedule(path, interval, next)];
  }

  /** All mutations, or those of one path. */
  datatype Which = All | Path(path: Text)

  predicate Counts(which: Which, path: Text) {
    which.All? || which.path == path
  }

  /** What one mutation asks for, of all users. */
  function RequestedOf(config: Config, spec: Spec): real {
    spec.ratePerMinute / 60.0
    + ActiveUserCount(config.users, spec.activeUsers) as real * spec.ratePerUserPerMinute / 60.0
  }

  /** What the first `n` mutations of the profile ask for, of those counted. */
  function ProfileRate(config: Config, which: Which, n: nat): real
    requires n <= |config.mutations|
  {
    if n == 0 then 0.0
    else
      var spec := config.mutations[n - 1];
      ProfileRate(config, which, n - 1)
      + if Counts(which, spec.path) then RequestedOf(config, spec) else 0.0
  }

  function RequestedRate(config: Config, which: Which): real {
    OverallRate(config, which) + ProfileRate(config, which, |config.mutations|)
  }

  function OverallRate(config: Config, which: Which): real {
    if Counts(which, config.mutationPath) then config.mutationRate else 0.0
  }

  method RequestedMutationRate(config: Config) returns (rate: real)
    ensures rate == RequestedRate(config, All)
  {
    rate := config.mutationRate;
    for j := 0 to |config.mutations|
      invariant rate == config.mutationRate + ProfileRate(config, All, j)
    {
      var perMinute, perUsers := SpecRates(config, config.mutations[j]);
      rate := rate + perMinute;
      rate := rate + perUsers;
    }
  }

  function RateAt(rates: map<Text, real>, path: Text): real {
    if path in rates then rates[path] else 0.0
  }

  method RequestedMutationRates(config: Config) returns (rates: map<Text, real>)
    requires config.mutationRate >= 0.0
    ensures forall path :: RateAt(rates, path) == RequestedRate(config, Path(path))
  {
    rates := map[];
    if config.mutationRate > 0.0 {
      rates := AddRate(rates, config.mutationPath, config.mutationRate);
    }
    for j := 0 to |config.mutations|
      invariant forall path :: RateAt(rates, path) == OverallRate(config, Path(path)) + ProfileRate(config, Path(path), j)
    {
      var perMinute, perUsers := SpecRates(config, config.mutations[j]);
      rates := AddRate(rates, config.mutations[j].path, perMinute);
      rates := AddRate(rates, config.mutations[j].path, perUsers);
    }
  }

  method SpecRates(config: Config, spec: Spec) returns (perMinute: real, perUsers: real)
    ensures perMinute + perUsers == RequestedOf(config, spec)
  {
    perMinute := spec.ratePerMinute / 60.0;
    perUsers := ActiveUserCount(config.users, spec.activeUsers) as real * spec.ratePerUserPerMinute / 60.0;
  }

  /** `rates[path] += rate` */
  method AddRate(given: map<Text, real>, path: Text, rate: real) returns (rates: map<Text, real>)
    ensures forall p :: RateAt(rates, p) == RateAt(given, p) + if p == path then rate else 0.0
  {
    rates := given[path := RateAt(given, path) + rate];
  }

  function SharesRate(shares: seq<Share>, which: Which): real {
    if shares == [] then 0.0
    else
      SharesRate(shares[..|shares| - 1], which)
      + if Counts(which, shares[|shares| - 1].path) then shares[|shares| - 1].rate else 0.0
  }

  predicate Positive(schedules: seq<Schedule>) {
    forall i :: 0 <= i < |schedules| ==> schedules[i].interval > 0.0
  }

  /** What schedules come to, of those counted: each fires once an interval. */
  function SchedulesRate(schedules: seq<Schedule>, which: Which): real
    requires Positive(schedules)
  {
    if schedules == [] then 0.0
    else
      SchedulesRate(schedules[..|schedules| - 1], which)
      + if Counts(which, schedules[|schedules| - 1].path) then SECOND / schedules[|schedules| - 1].interval else 0.0
  }

  predicate PositiveShares(shares: seq<Share>) {
    forall i :: 0 <= i < |shares| ==> shares[i].rate > 0.0
  }

  lemma ScheduleKeepsRate(share: Share, now: real)
    requires share.rate > 0.0
    ensures var schedule := ScheduleOf(share, now);
            schedule.path == share.path && schedule.interval > 0.0 && SECOND / schedule.interval == share.rate
  {
    var interval := SECOND / share.rate;
    assert interval * share.rate == SECOND;
    assert interval > 0.0;
  }

  lemma {:induction false} SchedulesKeepRate(shares: seq<Share>, now: real, which: Which)
    requires PositiveShares(shares)
    ensures Positive(SchedulesOf(shares, now))
    ensures SchedulesRate(SchedulesOf(shares, now), which) == SharesRate(shares, which)
    decreases |shares|
  {
    if shares != [] {
      var last := |shares| - 1;
      SchedulesKeepRate(shares[..last], now, which);
      assert SchedulesOf(shares, now)[..last] == SchedulesOf(shares[..last], now);
      assert forall i :: 0 <= i < last ==> SchedulesOf(shares, now)[i] == SchedulesOf(shares[..last], now)[i];
      ScheduleKeepsRate(shares[last], now);
    }
  }

  /** What the first `n` mutations come to, of those counted. */
  function SumOfRates(specs: seq<Spec>, rates: seq<real>, which: Which, n: nat): real
    requires n <= |specs| == |rates|
  {
    if n == 0 then 0.0
    else
      SumOfRates(specs, rates, which, n - 1) + if Counts(which, specs[n - 1].path) then rates[n - 1] else 0.0
  }

  function UserRates(config: Config, user: nat, which: Which, n: nat): real
    requires config.users >= 1 && n <= |config.mutations|
  {
    SumOfRates(config.mutations, RatesOfUser(config, user), which, n)
  }

  lemma UserRateNotNegative(config: Config, spec: Spec, user: nat)
    requires config.users >= 1 && ValidSpec(spec)
    ensures UserRate(config, spec, user) >= 0.0
  {
    var perMinute := spec.ratePerMinute / 60.0;
    assert perMinute >= 0.0;
    assert perMinute / config.users as real >= 0.0;
  }

  lemma {:induction false} RateOfBoth(shares: seq<Share>, more: seq<Share>, which: Which)
    ensures SharesRate(shares + more, which) == SharesRate(shares, which) + SharesRate(more, which)
    decreases |more|
  {
    if more == [] {
      assert shares + more == shares;
    } else {
      var init, last := more[..|more| - 1], more[|more| - 1];
      RateOfBoth(shares, init, which);
      assert shares + more == shares + init + [last];
    }
  }

  lemma {:induction false} ProfileSharesRate(
    specs: seq<Spec>, rates: seq<real>, user: nat, phases: (nat, nat) -> Phase, n: nat, which: Which)
    requires n <= |specs| == |rates| && forall j :: 0 <= j < |rates| ==> rates[j] >= 0.0
    ensures SharesRate(ProfileShares(specs, rates, user, phases, n), which) == SumOfRates(specs, rates, which, n)
    decreases n
  {
    if n > 0 {
      ProfileSharesRate(specs, rates, user, phases, n - 1, which);
      var before := ProfileShares(specs, rates, user, phases, n - 1);
      var more := SpecShares(specs[n - 1].path, rates[n - 1], phases(n - 1, user));
      RateOfBoth(before, more, which);
      assert ProfileShares(specs, rates, user, phases, n) == before + more;
    }
  }

  lemma {:induction false} ProfileSharesPositive(
    specs: seq<Spec>, rates: seq<real>, user: nat, phases: (nat, nat) -> Phase, n: nat)
    requires n <= |specs| == |rates|
    ensures PositiveShares(ProfileShares(specs, rates, user, phases, n))
    decreases n
  {
    if n > 0 {
      ProfileSharesPositive(specs, rates, user, phases, n - 1);
    }
  }

  lemma UserSharesRate(config: Config, user: nat, phases: (nat, nat) -> Phase, which: Which)
    requires Validated(config)
    ensures var shares := UserShares(config, user, phases, |config.mutations|);
            PositiveShares(shares) && SharesRate(shares, which) == UserRates(config, user, which, |config.mutations|)
  {
    var rates := RatesOfUser(config, user);
    forall j | 0 <= j < |rates| ensures rates[j] >= 0.0 {
      UserRateNotNegative(config, config.mutations[j], user);
    }
    ProfileSharesPositive(config.mutations, rates, user, phases, |config.mutations|);
    ProfileSharesRate(config.mutations, rates, user, phases, |config.mutations|, which);
  }

  /** The share of one connection in the overall rate. */
  function BaseRate(config: Config, which: Which): real
    requires config.connections >= 1
  {
    if config.mutationRate > 0.0 && Counts(which, config.mutationPath)
    then config.mutationRate / config.connections as real else 0.0
  }

  lemma BaseSharesRate(config: Config, which: Which)
    requires Validated(config)
    ensures PositiveShares(BaseShares(config)) && SharesRate(BaseShares(config), which) == BaseRate(config, which)
  {
    if config.mutationRate > 0.0 {
      var rate := config.mutationRate / config.connections as real;
      assert rate > 0.0;
      assert [] + BaseShares(config) == BaseShares(config);
    }
  }

  /** What the writer of a connection comes to. */
  function PlanRate(config: Config, plan: Plan, which: Which): real
    requires config.users >= 1 && config.connections >= 1
  {
    BaseRate(config, which)
    + if plan.connectionIndex != 0 then 0.0 else UserRates(config, plan.userIndex, which, |config.mutations|)
  }

  /** The schedules of a connection come to its rate; a connection that starts no writer has none. */
  lemma PlanRateIsItsSchedules(config: Config, plan: Plan, now: real, phases: (nat, nat) -> Phase, which: Which)
    requires Validated(config)
    ensures var schedules := SchedulesOf(PlanShares(config, plan, phases), now);
            && Positive(schedules) && SchedulesRate(schedules, which) == PlanRate(config, plan, which)
            && (!ConnectionHasMutations(config, plan) ==> schedules == [])
  {
    BaseSharesRate(config, which);
    if plan.connectionIndex == 0 {
      UserSharesRate(config, plan.userIndex, phases, which);
      RateOfBoth(BaseShares(config), UserShares(config, plan.userIndex, phases, |config.mutations|), which);
    } else {
      assert BaseShares(config) + [] == BaseShares(config);
    }
    SchedulesKeepRate(PlanShares(config, plan, phases), now, which);
  }

  /** The first `n` plans together. */
  function PlansRate(config: Config, which: Which, n: nat): real
    requires config.users >= 1 && config.connections >= 1
  {
    if n == 0 then 0.0 else PlansRate(config, which, n - 1) + PlanRate(config, PlanAt(config, n - 1), which)
  }

  /** `x`, `n` times over. */
  function Multiple(n: nat, x: real): real {
    if n == 0 then 0.0 else Multiple(n - 1, x) + x
  }

  lemma {:induction false} MultipleIsProduct(n: nat, x: real)
    ensures Multiple(n, x) == n as real * x
  {
    if n > 0 {
      MultipleIsProduct(n - 1, x);
    }
  }

  /** Equal parts of a whole sum up to it. */
  lemma Parts(x: real, n: nat)
    requires n >= 1
    ensures Multiple(n, x / n as real) == x
  {
    MultipleIsProduct(n, x / n as real);
  }

  lemma Sixtieths(n: nat, x: real)
    ensures Multiple(n, x / 60.0) == n as real * x / 60.0
  {
    MultipleIsProduct(n, x / 60.0);
  }

  function Active(config: Config, spec: Spec): nat
    requires config.users >= 1 && ValidSpec(spec)
  {
    ActiveUserCountRange(config.users, spec.activeUsers);
    ActiveUserCount(config.users, spec.activeUsers)
  }

  /** The first `m` users together in one mutation. */
  function FirstUsersOf(config: Config, spec: Spec, m: nat): real
    requires config.users >= 1 && ValidSpec(spec)
  {
    Multiple(m, spec.ratePerMinute / 60.0 / config.users as real)
    + Multiple(Min(m, Active(config, spec)), spec.ratePerUserPerMinute / 60.0)
  }

  lemma OneMoreUserOf(config: Config, spec: Spec, m: nat)
    requires config.users >= 1 && ValidSpec(spec)
    ensures FirstUsersOf(config, spec, m + 1) == FirstUsersOf(config, spec, m) + UserRate(config, spec, m)
  {
  }

  lemma AllUsersOf(config: Config, spec: Spec)
    requires config.users >= 1 && ValidSpec(spec)
    ensures FirstUsersOf(config, spec, config.users) == RequestedOf(config, spec)
  {
    ActiveUserCountRange(config.users, spec.activeUsers);
    Parts(spec.ratePerMinute / 60.0, config.users);
    Sixtieths(Active(config, spec), spec.ratePerUserPerMinute);
  }

  /** The first `m` users together in the first `n` mutations. */
  function FirstUsers(config: Config, which: Which, m: nat, n: nat): real
    requires Validated(config) && n <= |config.mutations|
  {
    if n == 0 then 0.0
    else
      var spec := config.mutations[n - 1];
      FirstUsers(config, which, m, n - 1) + if Counts(which, spec.path) then FirstUsersOf(config, spec, m) else 0.0
  }

  lemma {:induction false} OneMoreUser(config: Config, which: Which, m: nat, n: nat)
    requires Validated(config) && n <= |config.mutations|
    ensures FirstUsers(config, which, m + 1, n)
         == FirstUsers(config, which, m, n) + UserRates(config, m, which, n)
    decreases n
  {
    if n > 0 {
      OneMoreUser(config, which, m, n - 1);
      OneMoreUserOf(config, config.mutations[n - 1], m);
    }
  }

  lemma {:induction false} NoUsers(config: Config, which: Which, n: nat)
    requires Validated(config) && n <= |config.mutations|
    ensures FirstUsers(config, which, 0, n) == 0.0
    decreases n
  {
    if n > 0 {
      NoUsers(config, which, n - 1);
    }
  }

  lemma {:induction false} AllUsers(config: Config, which: Which, n: nat)
    requires Validated(config) && n <= |config.mutations|
    ensures FirstUsers(config, which, config.users, n) == ProfileRate(config, which, n)
    decreases n
  {
    if n > 0 {
      AllUsers(config, which, n - 1);
      AllUsersOf(config, config.mutations[n - 1]);
    }
  }

  /** Only the first connection of a user takes part in the profile's mutations. */
  lemma {:induction false} PlansRatePrefix(config: Config, which: Which, n: nat)
    requires Validated(config)
    ensures PlansRate(config, which, n)
         == Multiple(n, BaseRate(config, which))
            + FirstUsers(config, which, Min(n, config.users), |config.mutations|)
    decreases n
  {
    if n == 0 {
      NoUsers(config, which, |config.mutations|);
    } else {
      PlansRatePrefix(config, which, n - 1);
      if n <= config.users {
        DivMod(n - 1, config.users, 0, n - 1);
        OneMoreUser(config, which, n - 1, |config.mutations|);
      }
    }
  }

  /** The writers of all connections together come to exactly the requested rate, in all and for each path. */
  lemma RatesAddUp(config: Config, which: Which)
    requires Validated(config)
    ensures PlansRate(config, which, config.connections) == RequestedRate(config, which)
  {
    PlansRatePrefix(config, which, config.connections);
    AllUsers(config, which, |config.mutations|);
    if config.mutationRate > 0.0 && Counts(which, config.mutationPath) {
      Parts(config.mutationRate, config.connections);
    } else {
      MultipleIsProduct(config.connections, 0.0);
    }
  }

  // ---------------------------------------------------------------- the writer

  /** What becomes of a due mutation; the clock readings are the two that follow a sent message. */
  datatype Outcome = ArgsFailed | WriteFailed | Sent(checked: real, reread: real)

  /** One turn of the writer's loop: its timer fires, and the mutation is tried. */
  datatype Turn = Turn(at: real, outcome: Outcome)

  /** The first of the schedules that are due soonest. */
  function Soonest(schedules: seq<Schedule>): (k: nat)
    requires schedules != []
    ensures k < |schedules|
    ensures forall i :: 0 <= i < |schedules| ==> schedules[k].next <= schedules[i].next
    ensures forall i :: 0 <= i < k ==> schedules[k].next < schedules[i].next
  {
    var last := |schedules| - 1;
    if last == 0 then 0
    else
      var k := Soonest(schedules[..last]);
      assert forall i :: 0 <= i < last ==> schedules[..last][i] == schedules[i];
      if schedules[last].next < schedules[k].next then last else k
  }

  function Advanced(schedule: Schedule, outcome: Outcome): Schedule {
    match outcome
    case WriteFailed => schedule
    case ArgsFailed => schedule.(next := schedule.next + schedule.interval)
    case Sent(checked, reread) =>
      if schedule.next + schedule.interval < checked
      then schedule.(next := reread + schedule.interval) else schedule.(next := schedule.next + schedule.interval)
  }

  function Turned(schedules: seq<Schedule>, outcome: Outcome): seq<Schedule>
    requires schedules != []
  {
    schedules[Soonest(schedules) := Advanced(schedules[Soonest(schedules)], outcome)]
  }

  /** Turns as they can happen: a timer does not fire early, the clock does not go back, and a failed write ends
      the loop. */
  predicate Timely(schedules: seq<Schedule>, turns: seq<Turn>, clock: real)
    requires schedules != []
    decreases |turns|
  {
    turns == [] ||
    var turn := turns[0];
    && turn.at >= schedules[Soonest(schedules)].next && turn.at >= clock
    && match turn.outcome
       case WriteFailed => |turns| == 1
       case ArgsFailed => Timely(Turned(schedules, turn.outcome), turns[1..], turn.at)
       case Sent(checked, reread) =>
         turn.at <= checked <= reread && Timely(Turned(schedules, turn.outcome), turns[1..], reread)
  }

  /** The times at which schedule `k` fires. */
  function Firings(schedules: seq<Schedule>, turns: seq<Turn>, k: nat): seq<Turn>
    requires schedules != []
    decreases |turns|
  {
    if turns == [] then []
    else
      (if Soonest(schedules) == k then [turns[0]] else [])
      + Firings(Turned(schedules, turns[0].outcome), turns[1..], k)
  }

  function AfterTurns(schedules: seq<Schedule>, turns: seq<Turn>): (after: seq<Schedule>)
    requires schedules != []
    ensures |after| == |schedules|
    decreases |turns|
  {
    if turns == [] then schedules else AfterTurns(Turned(schedules, turns[0].outcome), turns[1..])
  }

  /** The clock after a turn. */
  function ClockAfter(turn: Turn): real {
    if turn.outcome.Sent? then turn.outcome.reread else turn.at
  }

  /** One turn: the schedule that fires is due at least one interval later, and not before a mutation it has
      just sent; the others wait. */
  lemma OneTurn(schedules: seq<Schedule>, turns: seq<Turn>, clock: real, k: nat)
    requires k < |schedules| && Positive(schedules) && turns != [] && Timely(schedules, turns, clock)
    requires !turns[0].outcome.WriteFailed?
    ensures var soonest, turn, after := Soonest(schedules), turns[0], Turned(schedules, turns[0].outcome);
            && |after| == |schedules| && Positive(after) && Timely(after, turns[1..], ClockAfter(turn))
            && turn.at >= schedules[soonest].next
            && after[k].interval == schedules[k].interval
            && (soonest == k ==> after[k].next >= schedules[k].next + schedules[k].interval)
            && (soonest == k && turn.outcome.Sent? ==> after[k].next >= turn.at)
            && (soonest != k ==> after[k] == schedules[k])
  {
  }

  /** The firings after one turn. */
  lemma FiringsAt(schedules: seq<Schedule>, turns: seq<Turn>, k: nat, n: nat)
    requires schedules != [] && turns != [] && n < |Firings(schedules, turns, k)|
    ensures var firings := Firings(schedules, turns, k);
            var rest := Firings(Turned(schedules, turns[0].outcome), turns[1..], k);
            if Soonest(schedules) != k then |rest| == |firings| && firings[n] == rest[n]
            else |rest| + 1 == |firings| && firings[n] == if n == 0 then turns[0] else rest[n - 1]
  {
    var rest := Firings(Turned(schedules, turns[0].outcome), turns[1..], k);
    if Soonest(schedules) == k {
      assert Firings(schedules, turns, k) == [turns[0]] + rest;
    } else {
      assert Firings(schedules, turns, k) == [] + rest == rest;
    }
  }

  lemma WriteFailedIsLast(schedules: seq<Schedule>, turns: seq<Turn>, clock: real, k: nat, n: nat)
    requires schedules != [] && Timely(schedules, turns, clock) && n < |Firings(schedules, turns, k)|
    requires turns != [] && turns[0].outcome.WriteFailed?
    ensures n == 0 && Soonest(schedules) == k && Firings(schedules, turns, k)[0] == turns[0]
    ensures turns[0].at >= schedules[k].next
  {
  }

  /** The n-th firing of a schedule, from 0, comes no earlier than its first due time and n intervals. */
  lemma {:induction false} NthFiringIsDue(schedules: seq<Schedule>, turns: seq<Turn>, clock: real, k: nat, n: nat)
    requires k < |schedules| && Positive(schedules) && Timely(schedules, turns, clock)
    requires n < |Firings(schedules, turns, k)|
    ensures Firings(schedules, turns, k)[n].at >= schedules[k].next + Multiple(n, schedules[k].interval)
    decreases |turns|
  {
    if turns[0].outcome.WriteFailed? {
      WriteFailedIsLast(schedules, turns, clock, k, n);
    } else {
      OneTurn(schedules, turns, clock, k);
      FiringsAt(schedules, turns, k, n);
      var after := Turned(schedules, turns[0].outcome);
      if Soonest(schedules) != k {
        NthFiringIsDue(after, turns[1..], ClockAfter(turns[0]), k, n);
      } else if n > 0 {
        NthFiringIsDue(after, turns[1..], ClockAfter(turns[0]), k, n - 1);
      }
    }
  }

  /** Whatever fires after a sent mutation does so no earlier than the mutation was sent, and from the second
      one on the intervals add up: a writer that has fallen behind does not catch up. */
  lemma {:induction false} NoBurstAfterSending(
    schedules: seq<Schedule>, turns: seq<Turn>, clock: real, k: nat, m: nat, n: nat)
    requires k < |schedules| && Positive(schedules) && Timely(schedules, turns, clock)
    requires m < n < |Firings(schedules, turns, k)| && Firings(schedules, turns, k)[m].outcome.Sent?
    ensures var firings := Firings(schedules, turns, k);
            firings[n].at >= firings[m].at + Multiple(n - m - 1, schedules[k].interval)
    decreases |turns|
  {
    if turns[0].outcome.WriteFailed? {
      WriteFailedIsLast(schedules, turns, clock, k, n);
    } else {
      OneTurn(schedules, turns, clock, k);
      FiringsAt(schedules, turns, k, n);
      FiringsAt(schedules, turns, k, m);
      var after, rest := Turned(schedules, turns[0].outcome), ClockAfter(turns[0]);
      if Soonest(schedules) != k {
        NoBurstAfterSending(after, turns[1..], rest, k, m, n);
      } else if m > 0 {
        NoBurstAfterSending(after, turns[1..], rest, k, m - 1, n - 1);
      } else {
        NthFiringIsDue(after, turns[1..], rest, k, n - 1);
      }
    }
  }

  /** How many firings happen by a time. */
  function FiredBy(firings: seq<Turn>, time: real): nat {
    if firings == [] then 0
    else FiredBy(firings[..|firings| - 1], time) + if firings[|firings| - 1].at <= time then 1 else 0
  }

  /** The n-th firing comes no earlier than `first` and n intervals. */
  ghost predicate OnSchedule(firings: seq<Turn>, first: real, interval: real) {
    forall n :: 0 <= n < |firings| ==> firings[n].at >= first + Multiple(n, interval)
  }

  lemma {:induction false} FiredAtMost(firings: seq<Turn>, time: real)
    ensures FiredBy(firings, time) <= |firings|
    decreases |firings|
  {
    if firings != [] { FiredAtMost(firings[..|firings| - 1], time); }
  }

  lemma {:induction false} FiredByBound(firings: seq<Turn>, time: real, first: real, interval: real)
    requires interval > 0.0 && OnSchedule(firings, first, interval)
    ensures if time < first then FiredBy(firings, time) == 0
            else Multiple(FiredBy(firings, time), interval) <= time - first + interval
    decreases |firings|
  {
    if firings != [] {
      var n := |firings| - 1;
      var before := FiredBy(firings[..n], time);
      FiredByBound(firings[..n], time, first, interval);
      OneMoreFiring(firings, time, first, interval, before);
    }
  }

  lemma OneMoreFiring(firings: seq<Turn>, time: real, first: real, interval: real, before: nat)
    requires firings != [] && interval > 0.0 && OnSchedule(firings, first, interval)
    requires before == FiredBy(firings[..|firings| - 1], time)
    ensures firings[|firings| - 1].at <= time ==>
              time >= first && Multiple(before + 1, interval) <= time - first + interval
  {
    var n := |firings| - 1;
    FiredAtMost(firings[..n], time);
    MultipleGrows(0, n, interval);
    MultipleGrows(before, n, interval);
    assert firings[n].at >= first + Multiple(n, interval);
  }

  lemma {:induction false} MultipleGrows(m: nat, n: nat, x: real)
    requires m <= n && x > 0.0
    ensures Multiple(m, x) <= Multiple(n, x)
    decreases n
  {
    if m < n { MultipleGrows(m, n - 1, x); }
  }

  lemma BoundAsQuotient(fired: nat, span: real, interval: real)
    requires interval > 0.0 && (span >= 0.0 ==> Multiple(fired, interval) <= span + interval)
    ensures span >= 0.0 ==> fired as real <= 1.0 + span / interval
  {
    if span >= 0.0 {
      MultipleIsProduct(fired, interval);
      DivideBy(fired as real - 1.0, span, interval);
    }
  }

  lemma DivideBy(n: real, x: real, d: real)
    requires d > 0.0 && n * d <= x
    ensures n <= x / d
  {
    var q := x / d;
    assert q * d == x;
    if n > q {
      assert n * d > q * d;
    }
  }

  /** The rate bound: by any time a schedule has fired at most once, and once more for every interval since it was
      first due, however late its timer was and whatever became of the mutations. */
  lemma RateIsBounded(schedules: seq<Schedule>, turns: seq<Turn>, clock: real, k: nat, time: real)
    requires k < |schedules| && Positive(schedules) && Timely(schedules, turns, clock)
    ensures var fired := FiredBy(Firings(schedules, turns, k), time);
            && (time < schedules[k].next ==> fired == 0)
            && (time >= schedules[k].next ==>
                  fired as real <= 1.0 + (time - schedules[k].next) / schedules[k].interval)
  {
    var firings := Firings(schedules, turns, k);
    var interval, first := schedules[k].interval, schedules[k].next;
    forall n | 0 <= n < |firings| ensures firings[n].at >= first + Multiple(n, interval) {
      NthFiringIsDue(schedules, turns, clock, k, n);
    }
    assert OnSchedule(firings, first, interval);
    FiredByBound(firings, time, first, interval);
    BoundAsQuotient(FiredBy(firings, time), time - first, interval);
  }

  /** Turns at one time, all of which fail to expand their arguments. */
  function Failures(late: real, n: nat): seq<Turn> {
    if n == 0 then [] else [Turn(late, ArgsFailed)] + Failures(late, n - 1)
  }

  /** After arguments that could not be expanded the schedule does catch up: it can fire `n` times more at once exactly
      when it is behind by n intervals. */
  lemma {:induction false} ArgsFailedMayBurst(schedule: Schedule, clock: real, late: real, n: nat)
    requires schedule.interval > 0.0
    ensures Timely([schedule], Failures(late, n + 1), clock)
            <==> late >= clock && late >= schedule.next + Multiple(n, schedule.interval)
    ensures Firings([schedule], Failures(late, n + 1), 0) == Failures(late, n + 1)
    decreases n
  {
    var turns := Failures(late, n + 1);
    var after := schedule.(next := schedule.next + schedule.interval);
    assert turns[0] == Turn(late, ArgsFailed) && turns[1..] == Failures(late, n);
    assert Soonest([schedule]) == 0 && Turned([schedule], ArgsFailed) == [after];
    if n == 0 {
      assert Firings([after], [], 0) == [] && Timely([after], [], late);
    } else {
      ArgsFailedMayBurst(after, late, late, n - 1);
      MultipleGrows(0, n, schedule.interval);
    }
  }

  method SoonestIndex(schedules: seq<Schedule>) returns (nextIndex: nat)
    requires schedules != []
    ensures nextIndex == Soonest(schedules)
  {
    nextIndex := 0;
    for index := 0 to |schedules|
      invariant nextIndex < |schedules|
      invariant forall i :: 0 <= i < index ==> schedules[nextIndex].next <= schedules[i].next
      invariant forall i :: 0 <= i < nextIndex ==> schedules[nextIndex].next < schedules[i].next
    {
      if schedules[index].next < schedules[nextIndex].next {
        nextIndex := index;
      }
    }
  }

  /** What becomes of the schedule that fired. */
  method TurnedAt(given: seq<Schedule>, nextIndex: nat, outcome: Outcome) returns (schedules: seq<Schedule>)
    requires given != [] && nextIndex == Soonest(given)
    ensures schedules == Turned(given, outcome)
  {
    schedules := given;
    var schedule := schedules[nextIndex];
    match outcome {
      case ArgsFailed =>
        schedule := schedule.(next := schedule.next + schedule.interval);
      case WriteFailed =>
      case Sent(checked, reread) =>
        schedule := schedule.(next := schedule.next + schedule.interval);
        if schedule.next < checked {
          schedule := schedule.(next := reread + schedule.interval);
        }
    }
    schedules := schedules[nextIndex := schedule];
  }

  /** The writer's loop, with its timers and clock readings given by the turns. */
  method RunMutationWriter(given: seq<Schedule>, turns: seq<Turn>)
    returns (schedules: seq<Schedule>, fired: seq<nat>)
    requires given == [] || Timely(given, turns, 0.0)
    ensures given == [] ==> schedules == [] && fired == []
    ensures given != [] ==> schedules == AfterTurns(given, turns) && |fired| == |turns|
    ensures given != [] ==> forall i :: 0 <= i < |turns| ==>
              fired[i] == Soonest(AfterTurns(given, turns[..i]))
  {
    schedules, fired := given, [];
    if |schedules| == 0 {
      return;
    }
    for turn := 0 to |turns|
      invariant schedules != [] && schedules == AfterTurns(given, turns[..turn]) && |fired| == turn
      invariant forall i :: 0 <= i < turn ==> fired[i] == Soonest(AfterTurns(given, turns[..i]))
    {
      var nextIndex := SoonestIndex(schedules);
      AfterOneMore(given, turns, turn);
      fired := fired + [nextIndex];
      schedules := TurnedAt(schedules, nextIndex, turns[turn].outcome);
    }
    assert turns[..|turns|] == turns;
  }

  lemma {:induction false} AfterOneMore(schedules: seq<Schedule>, turns: seq<Turn>, n: nat)
    requires schedules != [] && n < |turns|
    ensures AfterTurns(schedules, turns[..n]) != []
    ensures AfterTurns(schedules, turns[..n + 1]) == Turned(AfterTurns(schedules, turns[..n]), turns[n].outcome)
    decreases n
  {
    if n == 0 {
      assert turns[..1][1..] == [];
    } else {
      assert turns[..n + 1][1..] == turns[1..][..n];
      assert turns[..n][1..] == turns[1..][..n - 1];
      AfterOneMore(Turned(schedules, turns[0].outcome), turns[1..], n - 1);
    }
  }

  /** The turns in which schedule `k` fired. */
  function Picked(turns: seq<Turn>, fired: seq<nat>, k: nat): seq<Turn>
    requires |turns| == |fired|
  {
    if turns == [] then [] else (if fired[0] == k then [turns[0]] else []) + Picked(turns[1..], fired[1..], k)
  }

  /** What the loop reports as fired: the firings of a schedule are the turns in which it was chosen. */
  lemma {:induction false} FiringsAreTurns(given: seq<Schedule>, turns: seq<Turn>, fired: seq<nat>, k: nat)
    requires given != [] && |fired| == |turns|
    requires forall i :: 0 <= i < |turns| ==> fired[i] == Soonest(AfterTurns(given, turns[..i]))
    ensures Firings(given, turns, k) == Picked(turns, fired, k)
    decreases |turns|
  {
    if turns != [] {
      var after := Turned(given, turns[0].outcome);
      assert AfterTurns(given, turns[..0]) == given;
      forall i | 0 <= i < |turns| - 1 ensures fired[1..][i] == Soonest(AfterTurns(after, turns[1..][..i])) {
        assert turns[..i + 1][1..] == turns[1..][..i] && turns[..i + 1][0] == turns[0];
        assert fired[1..][i] == fired[i + 1];
      }
      FiringsAreTurns(after, turns[1..], fired[1..], k);
    }
  }
}
