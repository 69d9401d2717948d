/** When the mutations of a load run are due (cmd/gonvex-load/runner.go), in terms of the requested rates. */
module LoadTiming {
  import opened Texts
  import opened LoadRunner

  /** The users that take part are the whole number nearest to the fraction asked for, a half counting up. */
  lemma ActiveUsersAreNearest(users: nat, fraction: real)
    requires fraction >= 0.0
    ensures var n := ActiveUserCount(users, fraction) as real;
            n - 0.5 <= users as real * fraction < n + 0.5
  {
    var x := users as real * fraction;
    assert x >= 0.0;
  }

  /** In a minute each mutation of the profile is asked for at its own rate and once more for each active user; the
      overall rate comes on top. */
  lemma RequestedPerMinute(config: Config, which: Which, n: nat)
    requires n < |config.mutations|
    ensures var spec := config.mutations[n];
            60.0 * (ProfileRate(config, which, n + 1) - ProfileRate(config, which, n))
            == if which == All || which == Path(spec.path)
               then spec.ratePerMinute
                    + ActiveUserCount(config.users, spec.activeUsers) as real * spec.ratePerUserPerMinute
               else 0.0
    ensures ProfileRate(config, which, 0) == 0.0
    ensures RequestedRate(config, which) - ProfileRate(config, which, |config.mutations|)
            == if which == All || which == Path(config.mutationPath) then config.mutationRate else 0.0
  {
    var spec := config.mutations[n];
    var perUsers := ActiveUserCount(config.users, spec.activeUsers) as real * spec.ratePerUserPerMinute;
    assert 60.0 * (perUsers / 60.0) == perUsers;
    assert 60.0 * (spec.ratePerMinute / 60.0) == spec.ratePerMinute;
  }

  /** Of a mutation's own rate every user has the same part; the rate for each active user is that of the first users,
      as many as are active. */
  lemma SharePerMinute(config: Config, spec: Spec, user: nat)
    requires config.users >= 1
    ensures 60.0 * UserRate(config, spec, user) * config.users as real
         == spec.ratePerMinute
            + if user < ActiveUserCount(config.users, spec.activeUsers)
              then spec.ratePerUserPerMinute * config.users as real else 0.0
  {
    var n := config.users as real;
    var equal := spec.ratePerMinute / 60.0 / n;
    assert equal * n == spec.ratePerMinute / 60.0;
    assert 60.0 * (spec.ratePerMinute / 60.0) == spec.ratePerMinute;
    assert 60.0 * (spec.ratePerUserPerMinute / 60.0) == spec.ratePerUserPerMinute;
    assert 60.0 * equal * n == spec.ratePerMinute;
  }

  /** A schedule fires at the rate of its share, and begins within its first interval: at once in phase 0, and ever
      later the larger its phase. */
  lemma ScheduleBegins(share: Share, now: real)
    requires share.rate > 0.0
    ensures var schedule := ScheduleOf(share, now);
            && schedule.path == share.path
            && schedule.interval > 0.0 && schedule.interval * share.rate == SECOND
            && now <= schedule.next < now + schedule.interval
            && (schedule.next - now) * 10000.0 == schedule.interval * share.phase as real
            && (schedule.next == now <==> share.phase == 0)
  {
    var interval := SECOND / share.rate;
    ScheduleKeepsRate(share, now);
    assert interval * share.rate == SECOND;
    var late := interval * share.phase as real;
    PartOf(interval, share.phase as real);
    assert ScheduleOf(share, now).next - now == late / 10000.0;
  }

  lemma PartOf(interval: real, phase: real)
    requires interval > 0.0 && 0.0 <= phase < 10000.0
    ensures 0.0 <= interval * phase < interval * 10000.0
    ensures interval * phase == 0.0 <==> phase == 0.0
  {
    assert interval * (10000.0 - phase) > 0.0;
    if phase > 0.0 {
      assert interval * phase > 0.0;
    }
  }

  /** What a turn leaves due: an interval after it was due, unless that is already past once the mutation is sent; then
      an interval from now. After a write that failed nothing changes. */
  lemma DueNext(schedule: Schedule, outcome: Outcome)
    ensures var next := Advanced(schedule, outcome);
            && next.path == schedule.path && next.interval == schedule.interval
            && (outcome.WriteFailed? ==> next.next == schedule.next)
            && (outcome.ArgsFailed? ==> next.next == schedule.next + schedule.interval)
            && (outcome.Sent? && schedule.next + schedule.interval >= outcome.checked ==>
                  next.next == schedule.next + schedule.interval)
            && (outcome.Sent? && schedule.next + schedule.interval < outcome.checked ==>
                  next.next == outcome.reread + schedule.interval)
  {
  }

  /** Every firing of the schedule was over before its next one was due, the n-th being due n intervals after the
      first. */
  ghost predicate InTime(firings: seq<Turn>, first: real, interval: real) {
    forall n :: 0 <= n < |firings| ==>
      && !firings[n].outcome.WriteFailed?
      && (firings[n].outcome.Sent? ==> firings[n].outcome.checked <= first + Multiple(n + 1, interval))
  }

  lemma MultipleFromSecond(n: nat, x: real)
    ensures Multiple(n + 1, x) == x + Multiple(n, x)
  {
    MultipleIsProduct(n + 1, x);
    MultipleIsProduct(n, x);
  }

  lemma InTimeAfterFirst(firings: seq<Turn>, first: real, interval: real)
    requires firings != [] && InTime(firings, first, interval)
    ensures InTime(firings[1..], first + interval, interval)
  {
    forall n | 0 <= n < |firings[1..]|
      ensures !firings[1..][n].outcome.WriteFailed?
      ensures firings[1..][n].outcome.Sent? ==>
                firings[1..][n].outcome.checked <= first + interval + Multiple(n + 1, interval)
    {
      assert firings[1..][n] == firings[n + 1];
      MultipleFromSecond(n + 1, interval);
    }
  }

  /** A writer that is in time keeps its schedule exactly: after any turns the schedule is due as many intervals after
      its first due time as it has fired. */
  lemma {:induction false} InTimeKeepsSchedule(schedules: seq<Schedule>, turns: seq<Turn>, k: nat)
    requires k < |schedules| && InTime(Firings(schedules, turns, k), schedules[k].next, schedules[k].interval)
    ensures var firings := Firings(schedules, turns, k);
            && AfterTurns(schedules, turns)[k].interval == schedules[k].interval
            && AfterTurns(schedules, turns)[k].next == schedules[k].next + Multiple(|firings|, schedules[k].interval)
    decreases |turns|
  {
    if turns != [] {
      var after := Turned(schedules, turns[0].outcome);
      var firings, rest := Firings(schedules, turns, k), Firings(after, turns[1..], k);
      if Soonest(schedules) == k {
        assert firings == [turns[0]] + rest && firings[1..] == rest && firings[0] == turns[0];
        FirstInTime(schedules, turns[0], k, firings);
        InTimeAfterFirst(firings, schedules[k].next, schedules[k].interval);
        InTimeKeepsSchedule(after, turns[1..], k);
        MultipleFromSecond(|rest|, schedules[k].interval);
      } else {
        assert firings == [] + rest == rest;
        assert after[k] == schedules[k];
        InTimeKeepsSchedule(after, turns[1..], k);
      }
    }
  }

  lemma FirstInTime(schedules: seq<Schedule>, turn: Turn, k: nat, firings: seq<Turn>)
    requires k < |schedules| && Soonest(schedules) == k && firings != [] && firings[0] == turn
    requires InTime(firings, schedules[k].next, schedules[k].interval)
    ensures var after := Turned(schedules, turn.outcome)[k];
            after.next == schedules[k].next + schedules[k].interval && after.interval == schedules[k].interval
  {
    assert Multiple(1, schedules[k].interval) == Multiple(0, schedules[k].interval) + schedules[k].interval;
    assert !firings[0].outcome.WriteFailed?;
    DueNext(schedules[k], turn.outcome);
  }

  /** However late, a schedule is never put off further than one interval from the last clock reading of its turn, or
      from when it was due. */
  lemma NeverPutOffFurther(schedules: seq<Schedule>, turns: seq<Turn>, clock: real, k: nat)
    requires k < |schedules| && Positive(schedules) && Timely(schedules, turns, clock)
    requires turns != [] && Soonest(schedules) == k
    ensures var turn := turns[0];
            var due := Turned(schedules, turn.outcome)[k].next;
            due <= schedules[k].next + schedules[k].interval || due == ClockAfter(turn) + schedules[k].interval
  {
    DueNext(schedules[k], turns[0].outcome);
    assert schedules[k].interval > 0.0;
  }
}
