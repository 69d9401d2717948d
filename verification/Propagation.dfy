/** `propagationAggregator` (cmd/gonvex-load/ttlu.go), the part keyed by request id. */
module Propagation {
  import opened Texts
  import opened Options
  import opened TtluReport

  // Receipts are collected per client shard and folded into their commits when a report is made.

  const SHARDS := 64

  datatype Event =
    | CommitRecorded(id: Text, at: real, path: Text)
    | Delivery(ids: seq<Text>, client: Text, receivedAt: real)
    | Reported

  /** Receipts of one shard: by commit, by client. */
  type Shard = map<Text, map<Text, real>>

  /** `time.Duration(ms * float64(time.Millisecond))` */
  function DelayOf(ms: real): int {
    (ms * 1000000.0).Floor
  }

  // ---------------------------------------------------------------- the unsharded account of a history

  predicate Commits(e: Event, id: Text) {
    e.CommitRecorded? && e.id == id && id != [] && e.at > 0.0
  }

  predicate Delivers(e: Event, id: Text, client: Text) {
    e.Delivery? && e.client == client && client != [] && id != [] && id in e.ids && e.receivedAt > 0.0
  }

  /** The latest receipt of `id` by `client`, or zero. */
  ghost function LastReceipt(h: seq<Event>, id: Text, client: Text): real {
    if h == [] then 0.0
    else
      var before, e := LastReceipt(h[..|h| - 1], id, client), h[|h| - 1];
      if Delivers(e, id, client) && e.receivedAt > before then e.receivedAt else before
  }

  /** The last commit recorded under `id`. */
  ghost function CommitOf(h: seq<Event>, id: Text): Option<Event> {
    if h == [] then None
    else if Commits(h[|h| - 1], id) then Some(h[|h| - 1])
    else CommitOf(h[..|h| - 1], id)
  }

  /** The delay of a client for a commit as things stand: from the commit's time to the latest receipt. */
  ghost function Expected(h: seq<Event>, id: Text, client: Text): Option<int> {
    var commit, receipt := CommitOf(h, id), LastReceipt(h, id, client);
    if commit.Some? && commit.value.CommitRecorded? && receipt > 0.0 && receipt >= commit.value.at
    then Some(DelayOf(receipt - commit.value.at))
    else None
  }

  /** No request id is committed twice. */
  ghost predicate OnceEach(h: seq<Event>) {
    forall i, j, id :: 0 <= i < j < |h| && Commits(h[i], id) ==> !Commits(h[j], id)
  }

  function Get<V>(m: map<Text, V>, k: Text): Option<V> {
    if k in m then Some(m[k]) else None
  }

  /** `a` is no larger than `b`; nothing is smaller than any delay. */
  predicate NoLarger(a: Option<int>, b: Option<int>) {
    a.None? || (b.Some? && a.value <= b.value)
  }

  function Larger(a: Option<int>, b: Option<int>): Option<int> {
    if NoLarger(a, b) then b else a
  }

  /** The delay the aggregator keeps for a client of a commit: each report folds in what is expected then. */
  ghost function Kept(h: seq<Event>, id: Text, client: Text): Option<int> {
    if h == [] then None
    else
      var before := Kept(h[..|h| - 1], id, client);
      if h[|h| - 1].Reported? then Larger(before, Expected(h, id, client)) else before
  }

  /** The commits of a history, each with exactly the delays kept. */
  ghost predicate Accounts(commits: map<Text, Commit>, h: seq<Event>) {
    && Recorded(commits, h)
    && forall id, client :: id in commits ==> Get(commits[id].clients, client) == Kept(h, id, client)
  }

  /** The commits of a history, each with exactly the expected delays. */
  ghost predicate Exact(commits: map<Text, Commit>, h: seq<Event>) {
    && Recorded(commits, h)
    && forall id, client :: id in commits ==> Get(commits[id].clients, client) == Expected(h, id, client)
  }

  ghost predicate Recorded(commits: map<Text, Commit>, h: seq<Event>) {
    && (forall id :: id in commits <==> CommitOf(h, id).Some?)
    && (forall id :: id in commits ==>
          CommitOf(h, id).value == CommitRecorded(id, commits[id].committedAtMS, commits[id].path))
  }

  function Lookup(shard: Shard, id: Text, client: Text): real {
    if id in shard && client in shard[id] then shard[id][client] else 0.0
  }

  // ---------------------------------------------------------------- folding receipts into commits

  /** `recordReceiptLocked` */
  function RecordReceipt(commit: Commit, client: Text, receivedAt: real): Commit {
    var delayMS := receivedAt - commit.committedAtMS;
    if delayMS < 0.0 then commit
    else if client !in commit.clients || DelayOf(delayMS) > commit.clients[client] then
      commit.(clients := commit.clients[client := DelayOf(delayMS)])
    else commit
  }

  /** What a client's delay becomes when its receipts are folded in. */
  function FoldedDelay(commit: Commit, receipts: map<Text, real>, client: Text): Option<int> {
    if client in receipts then Get(RecordReceipt(commit, client, receipts[client]).clients, client)
    else Get(commit.clients, client)
  }

  method FoldClients(commit: Commit, receipts: map<Text, real>) returns (r: Commit)
    ensures r.path == commit.path && r.committedAtMS == commit.committedAtMS
    ensures forall client :: Get(r.clients, client) == FoldedDelay(commit, receipts, client)
  {
    r := commit;
    var todo := receipts.Keys;
    while todo != {}
      invariant todo <= receipts.Keys
      invariant r.path == commit.path && r.committedAtMS == commit.committedAtMS
      invariant forall client :: Get(r.clients, client)
                                 == if client in todo then Get(commit.clients, client)
                                    else FoldedDelay(commit, receipts, client)
      decreases todo
    {
      var client :| client in todo;
      assert Get(r.clients, client) == Get(commit.clients, client);
      r := RecordReceipt(r, client, receipts[client]);
      todo := todo - {client};
    }
  }

  /** The commits after one shard has been folded in. */
  ghost predicate Folded(before: map<Text, Commit>, shard: Shard, after: map<Text, Commit>) {
    && after.Keys == before.Keys
    && forall id :: id in before ==> FoldedCommit(before[id], Get(shard, id), after[id])
  }

  ghost predicate FoldedCommit(before: Commit, receipts: Option<map<Text, real>>, after: Commit) {
    && after.path == before.path && after.committedAtMS == before.committedAtMS
    && (if receipts.None? || before.committedAtMS <= 0.0 then after == before
        else forall client :: Get(after.clients, client) == FoldedDelay(before, receipts.value, client))
  }

  method FoldShard(commits: map<Text, Commit>, shard: Shard) returns (r: map<Text, Commit>)
    ensures Folded(commits, shard, r)
  {
    r := commits;
    var todo := shard.Keys;
    while todo != {}
      invariant todo <= shard.Keys && r.Keys == commits.Keys
      invariant forall id :: id in commits ==>
                  if id in todo then r[id] == commits[id] else FoldedCommit(commits[id], Get(shard, id), r[id])
      decreases todo
    {
      var id :| id in todo;
      todo := todo - {id};
      if id !in r || r[id].committedAtMS <= 0.0 {
        continue;
      }
      var commit := FoldClients(r[id], shard[id]);
      r := r[id := commit];
    }
  }

  // ---------------------------------------------------------------- the class

  class PropagationAggregator {
    const hash: Text -> nat
    const receipts: array<Shard>
    var commits: map<Text, Commit>
    /** Every recorded event, in order. */
    ghost var history: seq<Event>

    function ShardOf(client: Text): (k: nat)
      ensures k < SHARDS
    {
      hash(client) % SHARDS
    }

    ghost predicate ReceiptsValid(h: seq<Event>)
      reads receipts
    {
      && receipts.Length == SHARDS
      && (forall id, client :: Lookup(receipts[ShardOf(client)], id, client) == LastReceipt(h, id, client))
      && (forall k: nat, id, client :: k < SHARDS && id in receipts[k] && client in receipts[k][id] ==>
            k == ShardOf(client) && receipts[k][id][client] > 0.0)
    }

    ghost predicate Valid()
      reads this, receipts
    {
      ReceiptsValid(history) && Accounts(commits, history)
    }

    constructor (hashFunction: Text -> nat)
      ensures Valid() && history == [] && fresh(receipts)
    {
      hash := hashFunction;
      receipts := new Shard[SHARDS](_ => map[]);
      commits, history := map[], [];
    }

    method RecordCommitID(id: Text, at: real, path: Text)
      requires Valid()
      modifies this
      ensures Valid() && history == old(history) + [CommitRecorded(id, at, path)]
      ensures commits == if id == [] || at <= 0.0 then old(commits)
                         else old(commits)[id := Commit(path, at, if id in old(commits) then old(commits)[id].clients
                                                                  else map[])]
    {
      ghost var e := CommitRecorded(id, at, path);
      ghost var before := history;
      history := history + [e];
      ReceiptsAfter(before, e);
      if id == [] || at <= 0.0 {
        AccountsAfter(commits, before, e);
        return;
      }
      CommitAccounts(commits, before, e);
      var clients := if id in commits then commits[id].clients else map[];
      commits := commits[id := Commit(path, at, clients)];
    }

    method RecordDeliveryIDs(ids: seq<Text>, client: Text, receivedAt: real)
      requires Valid()
      modifies this`history, receipts
      ensures Valid() && history == old(history) + [Delivery(ids, client, receivedAt)]
      ensures client == [] || receivedAt <= 0.0 ==> receipts[..] == old(receipts[..])
      ensures receipts.Length == SHARDS && forall k :: 0 <= k < SHARDS && k != ShardOf(client) ==>
                receipts[k] == old(receipts[k])
    {
      ghost var e := Delivery(ids, client, receivedAt);
      ghost var before := history;
      history := history + [e];
      AccountsAfter(commits, before, e);
      if client == [] || receivedAt <= 0.0 {
        ReceiptsAfter(before, e);
        return;
      }
      var k := ShardOf(client);
      var shard := AddReceipts(receipts[k], ids, client, receivedAt);
      receipts[k] := shard;
      forall i, c ensures Lookup(receipts[ShardOf(c)], i, c) == LastReceipt(history, i, c) {
        LastReceiptAppend(before, e, i, c);
        assert old(Lookup(receipts[ShardOf(c)], i, c)) == LastReceipt(before, i, c);
      }
    }

    /** Folds the shards into the commits and reports on the result: every delay is then the kept one. */
    method Report() returns (report: TTLUReport)
      requires Valid()
      modifies this`commits, this`history
      ensures Valid() && history == old(history) + [Reported]
      ensures IsReport(report, commits)
    {
      ghost var before := history;
      for k := 0 to SHARDS
        invariant history == before && ReceiptsValid(history) && Recorded(commits, history)
        invariant FoldedBelow(commits, history, k)
      {
        ghost var unfolded := commits;
        commits := FoldShard(commits, receipts[k]);
        FoldKeepsRecorded(unfolded, receipts[k], commits, history);
        ShardFolds(unfolded, commits, k);
      }
      history := history + [Reported];
      ReceiptsAfter(before, Reported);
      AllFolded(commits, before);
      report := Summarize(commits);
    }

    /** The clients in shards below `k` have their delays of the report, the others still those before it. */
    ghost predicate FoldedBelow(cs: map<Text, Commit>, h: seq<Event>, k: nat) {
      forall id, client :: id in cs ==>
        Get(cs[id].clients, client)
        == if ShardOf(client) < k then Larger(Kept(h, id, client), Expected(h, id, client)) else Kept(h, id, client)
    }

    lemma ReceiptsAfter(h: seq<Event>, e: Event)
      requires ReceiptsValid(h) && forall id, client :: !Delivers(e, id, client)
      ensures ReceiptsValid(h + [e])
    {
      forall id, client ensures Lookup(receipts[ShardOf(client)], id, client) == LastReceipt(h + [e], id, client) {
        LastReceiptAppend(h, e, id, client);
      }
    }

    lemma AllFolded(cs: map<Text, Commit>, h: seq<Event>)
      requires Recorded(cs, h) && FoldedBelow(cs, h, SHARDS)
      ensures Accounts(cs, h + [Reported])
    {
      RecordedAfter(cs, h, Reported);
      forall id, client | id in cs ensures Get(cs[id].clients, client) == Kept(h + [Reported], id, client) {
        assert ShardOf(client) < SHARDS;
        KeptAppend(h, Reported, id, client);
      }
    }

    lemma ShardFolds(before: map<Text, Commit>, after: map<Text, Commit>, k: nat)
      requires k < SHARDS && ReceiptsValid(history) && Recorded(before, history)
      requires Folded(before, receipts[k], after) && FoldedBelow(before, history, k)
      ensures FoldedBelow(after, history, k + 1)
    {
      forall id, client | id in after
        ensures Get(after[id].clients, client)
             == if ShardOf(client) < k + 1 then Larger(Kept(history, id, client), Expected(history, id, client))
                else Kept(history, id, client)
      {
        ClientFolds(before, after, k, id, client);
      }
    }

    lemma ClientFolds(before: map<Text, Commit>, after: map<Text, Commit>, k: nat, id: Text, client: Text)
      requires k < SHARDS && ReceiptsValid(history) && Recorded(before, history)
      requires Folded(before, receipts[k], after) && id in before
      ensures Get(after[id].clients, client)
           == if ShardOf(client) == k then Larger(Get(before[id].clients, client), Expected(history, id, client))
              else Get(before[id].clients, client)
    {
      var commit, shard := before[id], receipts[k];
      CommitPositive(history, id);
      assert FoldedCommit(commit, Get(shard, id), after[id]);
      assert Lookup(receipts[ShardOf(client)], id, client) == LastReceipt(history, id, client);
      if id in shard {
        assert Get(after[id].clients, client) == FoldedDelay(commit, shard[id], client);
        if client in shard[id] {
          assert k == ShardOf(client) && shard[id][client] == LastReceipt(history, id, client);
        }
      }
    }
  }

  predicate OldOrNew(r: Shard, shard: Shard, id: Text, c: Text, client: Text, receivedAt: real)
    requires id in r && c in r[id]
  {
    || (id in shard && c in shard[id] && r[id][c] == shard[id][c])
    || (c == client && r[id][c] == receivedAt)
  }

  /** The loop over the ids of one delivery. */
  method AddReceipts(shard: Shard, ids: seq<Text>, client: Text, receivedAt: real) returns (r: Shard)
    requires receivedAt > 0.0
    ensures forall id, c :: Lookup(r, id, c)
                            == if c == client && id != [] && id in ids && receivedAt > Lookup(shard, id, c)
                               then receivedAt else Lookup(shard, id, c)
    ensures forall id, c :: id in r && c in r[id] ==> OldOrNew(r, shard, id, c, client, receivedAt)
  {
    r := shard;
    for i := 0 to |ids|
      invariant forall id, c :: Lookup(r, id, c)
                                == if c == client && id != [] && id in ids[..i] && receivedAt > Lookup(shard, id, c)
                                   then receivedAt else Lookup(shard, id, c)
      invariant forall id, c :: id in r && c in r[id] ==> OldOrNew(r, shard, id, c, client, receivedAt)
    {
      var id := ids[i];
      assert ids[..i + 1] == ids[..i] + [id];
      if id == [] {
        continue;
      }
      var clients := if id in r then r[id] else map[];
      var previous := if client in clients then clients[client] else 0.0;
      if receivedAt > previous {
        clients := clients[client := receivedAt];
      }
      r := r[id := clients];
    }
    assert ids[..|ids|] == ids;
  }

  // ---------------------------------------------------------------- one event more

  lemma LastReceiptAppend(h: seq<Event>, e: Event, id: Text, client: Text)
    ensures LastReceipt(h + [e], id, client)
            == if Delivers(e, id, client) && e.receivedAt > LastReceipt(h, id, client) then e.receivedAt
               else LastReceipt(h, id, client)
    ensures CommitOf(h + [e], id) == if Commits(e, id) then Some(e) else CommitOf(h, id)
  {
    assert (h + [e])[..|h|] == h;
  }

  lemma KeptAppend(h: seq<Event>, e: Event, id: Text, client: Text)
    ensures Kept(h + [e], id, client)
            == if e.Reported? then Larger(Kept(h, id, client), Expected(h, id, client)) else Kept(h, id, client)
  {
    assert (h + [e])[..|h|] == h;
    LastReceiptAppend(h, e, id, client);
  }

  lemma RecordedAfter(cs: map<Text, Commit>, h: seq<Event>, e: Event)
    requires Recorded(cs, h) && forall id :: !Commits(e, id)
    ensures Recorded(cs, h + [e])
  {
    forall id ensures CommitOf(h + [e], id) == CommitOf(h, id) {
      LastReceiptAppend(h, e, id, []);
    }
  }

  /** An event that neither commits nor reports leaves the account as it is. */
  lemma AccountsAfter(cs: map<Text, Commit>, h: seq<Event>, e: Event)
    requires Accounts(cs, h) && !e.Reported? && forall id :: !Commits(e, id)
    ensures Accounts(cs, h + [e])
  {
    RecordedAfter(cs, h, e);
    forall id, client | id in cs ensures Get(cs[id].clients, client) == Kept(h + [e], id, client) {
      KeptAppend(h, e, id, client);
    }
  }

  /** A commit that is not known has no delays; one recorded again keeps those it has. */
  lemma CommitAccounts(cs: map<Text, Commit>, h: seq<Event>, e: Event)
    requires Accounts(cs, h) && e.CommitRecorded? && Commits(e, e.id)
    ensures var clients := if e.id in cs then cs[e.id].clients else map[];
            Accounts(cs[e.id := Commit(e.path, e.at, clients)], h + [e])
  {
    var clients := if e.id in cs then cs[e.id].clients else map[];
    var next := cs[e.id := Commit(e.path, e.at, clients)];
    forall id
      ensures id in next <==> CommitOf(h + [e], id).Some?
      ensures id in next ==> CommitOf(h + [e], id).value == CommitRecorded(id, next[id].committedAtMS, next[id].path)
    {
      LastReceiptAppend(h, e, id, []);
    }
    forall id, client | id in next ensures Get(next[id].clients, client) == Kept(h + [e], id, client) {
      KeptAppend(h, e, id, client);
      if id !in cs { NothingKept(h, id, client); }
    }
  }

  lemma {:induction false} NothingKept(h: seq<Event>, id: Text, client: Text)
    requires CommitOf(h, id).None?
    ensures Kept(h, id, client) == None
  {
    if h != [] { NothingKept(h[..|h| - 1], id, client); }
  }

  lemma FoldKeepsRecorded(before: map<Text, Commit>, shard: Shard, after: map<Text, Commit>, h: seq<Event>)
    requires Folded(before, shard, after) && Recorded(before, h)
    ensures Recorded(after, h)
  {
    forall id | id in after
      ensures CommitOf(h, id).value == CommitRecorded(id, after[id].committedAtMS, after[id].path)
    {
      assert FoldedCommit(before[id], Get(shard, id), after[id]);
    }
  }

  lemma {:induction false} CommitIndex(h: seq<Event>, id: Text) returns (i: nat)
    requires CommitOf(h, id).Some?
    ensures i < |h| && Commits(h[i], id) && CommitOf(h, id).value == h[i]
    ensures forall j :: i < j < |h| ==> !Commits(h[j], id)
  {
    if Commits(h[|h| - 1], id) {
      i := |h| - 1;
    } else {
      i := CommitIndex(h[..|h| - 1], id);
    }
  }

  lemma CommitPositive(h: seq<Event>, id: Text)
    requires CommitOf(h, id).Some?
    ensures Commits(CommitOf(h, id).value, id)
  {
    var i := CommitIndex(h, id);
  }

  // ---------------------------------------------------------------- what is expected, and why order is not

  lemma {:induction false} LastReceiptMeaning(h: seq<Event>, id: Text, client: Text)
    ensures var r := LastReceipt(h, id, client);
            && r >= 0.0
            && (forall i :: 0 <= i < |h| && Delivers(h[i], id, client) ==> h[i].receivedAt <= r)
            && (r > 0.0 ==> exists i :: 0 <= i < |h| && Delivers(h[i], id, client) && h[i].receivedAt == r)
  {
    if h != [] {
      var before := h[..|h| - 1];
      LastReceiptMeaning(before, id, client);
      var r := LastReceipt(h, id, client);
      if r > 0.0 {
        if r == LastReceipt(before, id, client) {
          var i :| 0 <= i < |before| && Delivers(before[i], id, client) && before[i].receivedAt == r;
          assert h[i] == before[i];
        } else {
          assert Delivers(h[|h| - 1], id, client);
        }
      }
      forall i | 0 <= i < |h| && Delivers(h[i], id, client) ensures h[i].receivedAt <= r {
        if i < |before| {
          assert before[i] == h[i];
        }
      }
    }
  }

  /** A delay in whole nanoseconds: the milliseconds times a million, with the fraction cut off. */
  lemma DelayMeaning(ms: real)
    requires ms >= 0.0
    ensures DelayOf(ms) as real <= ms * 1000000.0 < DelayOf(ms) as real + 1.0
  {
  }

  function TimeOf(e: Event): real {
    match e case CommitRecorded(_, at, _) => at case Delivery(_, _, at) => at case Reported => 0.0
  }

  /** The expected delay is the largest non-negative difference between a receipt of the commit by the client
      and the commit's time, over all deliveries naming them, before or after the commit. */
  lemma ExpectedIsLargestDelay(h: seq<Event>, id: Text, client: Text)
    requires CommitOf(h, id).Some?
    ensures var at := TimeOf(CommitOf(h, id).value); var d := Expected(h, id, client);
            && (d.Some? <==> exists i :: 0 <= i < |h| && Delivers(h[i], id, client) && h[i].receivedAt >= at)
            && (d.Some? ==>
                 && d.value >= 0
                 && (exists i :: 0 <= i < |h| && Delivers(h[i], id, client) && h[i].receivedAt >= at
                                && d.value == DelayOf(h[i].receivedAt - at))
                 && (forall i :: 0 <= i < |h| && Delivers(h[i], id, client) && h[i].receivedAt >= at
                                ==> DelayOf(h[i].receivedAt - at) <= d.value))
  {
    CommitPositive(h, id);
    LastReceiptMeaning(h, id, client);
    var at, r := CommitOf(h, id).value.at, LastReceipt(h, id, client);
    forall i | 0 <= i < |h| && Delivers(h[i], id, client) && h[i].receivedAt >= at
      ensures DelayOf(h[i].receivedAt - at) <= DelayOf(r - at)
    {
    }
    if r > 0.0 && r >= at {
      var i :| 0 <= i < |h| && Delivers(h[i], id, client) && h[i].receivedAt == r;
    }
  }

  // ---------------------------------------------------------------- what is kept, and when it is what is expected

  predicate ReportAt(h: seq<Event>, i: nat) {
    i < |h| && h[i].Reported?
  }

  /** For every history: the delay kept is the largest one that was expected at some report. */
  lemma {:induction false} KeptIsLargestReported(h: seq<Event>, id: Text, client: Text)
    ensures forall i: nat :: ReportAt(h, i) ==> NoLarger(Expected(h[..i], id, client), Kept(h, id, client))
    ensures Kept(h, id, client).Some? ==>
              exists i: nat :: ReportAt(h, i) && Expected(h[..i], id, client) == Kept(h, id, client)
  {
    if h != [] {
      var n := |h| - 1;
      var before := h[..n];
      KeptIsLargestReported(before, id, client);
      LastReceiptAppend(before, h[n], id, client);
      assert h == before + [h[n]];
      KeptAppend(before, h[n], id, client);
      forall i: nat | ReportAt(h, i) ensures NoLarger(Expected(h[..i], id, client), Kept(h, id, client)) {
        if i < n {
          assert ReportAt(before, i) && before[..i] == h[..i];
        }
      }
      if Kept(h, id, client).Some? {
        if Kept(h, id, client) == Kept(before, id, client) {
          var i: nat :| ReportAt(before, i) && Expected(before[..i], id, client) == Kept(before, id, client);
          assert ReportAt(h, i) && before[..i] == h[..i];
        } else {
          assert ReportAt(h, n);
        }
      }
    }
  }

  /** No report so far saw a larger delay of the client than is expected now. */
  ghost predicate NeverLarger(h: seq<Event>, id: Text, client: Text) {
    forall i: nat :: ReportAt(h, i) ==> NoLarger(Expected(h[..i], id, client), Expected(h, id, client))
  }

  lemma KeptExactly(h: seq<Event>, id: Text, client: Text)
    ensures Expected(h + [Reported], id, client) == Expected(h, id, client)
    ensures Kept(h + [Reported], id, client) == Expected(h, id, client) <==> NeverLarger(h, id, client)
  {
    LastReceiptAppend(h, Reported, id, client);
    KeptAppend(h, Reported, id, client);
    KeptIsLargestReported(h, id, client);
    var kept := Kept(h, id, client);
    if kept.Some? {
      var i: nat :| ReportAt(h, i) && Expected(h[..i], id, client) == kept;
    }
  }

  /** The delays of a report are exactly the expected ones if and only if no report before it saw a larger one,
      of any client for any commit. */
  lemma ReportIsExactlyWhen(h: seq<Event>, cs: map<Text, Commit>)
    requires Accounts(cs, h + [Reported])
    ensures Exact(cs, h + [Reported]) <==>
            forall id, client :: CommitOf(h, id).Some? ==> NeverLarger(h, id, client)
  {
    forall id, client | CommitOf(h, id).Some?
      ensures id in cs
      ensures Get(cs[id].clients, client) == Expected(h + [Reported], id, client) <==> NeverLarger(h, id, client)
    {
      LastReceiptAppend(h, Reported, id, client);
      KeptExactly(h, id, client);
    }
    forall id ensures CommitOf(h + [Reported], id) == CommitOf(h, id) {
      LastReceiptAppend(h, Reported, id, []);
    }
  }

  /** A commit recorded again may only move to an earlier time. */
  ghost predicate TimesNeverGrow(h: seq<Event>) {
    forall i, j, id :: 0 <= i < j < |h| && Commits(h[i], id) && Commits(h[j], id) ==> h[j].at <= h[i].at
  }

  lemma {:induction false} ReceiptsGrow(h: seq<Event>, i: nat, id: Text, client: Text)
    requires i <= |h|
    ensures LastReceipt(h[..i], id, client) <= LastReceipt(h, id, client)
    decreases |h|
  {
    if i == |h| {
      assert h[..i] == h;
    } else {
      ReceiptsGrow(h[..|h| - 1], i, id, client);
      assert h[..|h| - 1][..i] == h[..i];
    }
  }

  lemma ExpectedGrows(h: seq<Event>, i: nat, id: Text, client: Text)
    requires TimesNeverGrow(h) && i <= |h|
    ensures NoLarger(Expected(h[..i], id, client), Expected(h, id, client))
  {
    if Expected(h[..i], id, client).Some? {
      ReceiptsGrow(h, i, id, client);
      var j := CommitIndex(h[..i], id);
      assert h[j] == h[..i][j];
      if CommitOf(h, id).None? {
        CommitMissing(h, id, j);
      } else {
        var k := CommitIndex(h, id);
        assert h[k].at <= h[j].at;
        DelayMonotone(LastReceipt(h[..i], id, client) - h[j].at, LastReceipt(h, id, client) - h[k].at);
      }
    }
  }

  lemma DelayMonotone(x: real, y: real)
    requires x <= y
    ensures DelayOf(x) <= DelayOf(y)
  {
  }

  /** That is so when no commit is recorded again at a later time, with any reports in between. */
  lemma EarlierTimesAreExact(h: seq<Event>, cs: map<Text, Commit>)
    requires TimesNeverGrow(h) && Accounts(cs, h + [Reported])
    ensures Exact(cs, h + [Reported])
  {
    forall id, client | CommitOf(h, id).Some? ensures NeverLarger(h, id, client) {
      forall i: nat | ReportAt(h, i) ensures NoLarger(Expected(h[..i], id, client), Expected(h, id, client)) {
        ExpectedGrows(h, i, id, client);
      }
    }
    ReportIsExactlyWhen(h, cs);
  }

  lemma OnceEachIsExact(h: seq<Event>, cs: map<Text, Commit>)
    requires OnceEach(h) && Accounts(cs, h + [Reported])
    ensures Exact(cs, h + [Reported])
  {
    EarlierTimesAreExact(h, cs);
  }

  /** The first report is exact whatever was recorded how often. */
  lemma FirstReportIsExact(h: seq<Event>, cs: map<Text, Commit>)
    requires Accounts(cs, h + [Reported]) && forall i: nat :: !ReportAt(h, i)
    ensures Exact(cs, h + [Reported])
  {
    forall id, client | CommitOf(h, id).Some? ensures NeverLarger(h, id, client) {
    }
    ReportIsExactlyWhen(h, cs);
  }

  /** A commit that is recorded again at a later time after a report keeps the delay it had: 9 milliseconds where 5
      are expected. */
  lemma LaterCommitKeepsOldDelay(x: Text, c: Text, path: Text)
    requires x != [] && c != []
    ensures var h := [CommitRecorded(x, 1.0, path), Delivery([x], c, 10.0), Reported, CommitRecorded(x, 5.0, path)];
            && Expected(h + [Reported], x, c) == Some(5000000)
            && Kept(h + [Reported], x, c) == Some(9000000)
  {
    var h1 := [CommitRecorded(x, 1.0, path)];
    var h2 := h1 + [Delivery([x], c, 10.0)];
    var h3 := h2 + [Reported];
    var h4 := h3 + [CommitRecorded(x, 5.0, path)];
    assert h1 == [] + [CommitRecorded(x, 1.0, path)];
    LastReceiptAppend([], CommitRecorded(x, 1.0, path), x, c);
    LastReceiptAppend(h1, Delivery([x], c, 10.0), x, c);
    LastReceiptAppend(h2, Reported, x, c);
    LastReceiptAppend(h3, CommitRecorded(x, 5.0, path), x, c);
    LastReceiptAppend(h4, Reported, x, c);
    KeptAppend([], CommitRecorded(x, 1.0, path), x, c);
    KeptAppend(h1, Delivery([x], c, 10.0), x, c);
    KeptAppend(h2, Reported, x, c);
    KeptAppend(h3, CommitRecorded(x, 5.0, path), x, c);
    KeptAppend(h4, Reported, x, c);
    assert h4 == [CommitRecorded(x, 1.0, path), Delivery([x], c, 10.0), Reported, CommitRecorded(x, 5.0, path)];
  }

  /** Two histories leave the same commit and the same delay. */
  ghost predicate Alike(h: seq<Event>, g: seq<Event>, id: Text, client: Text) {
    CommitOf(h, id) == CommitOf(g, id) && Kept(h, id, client) == Kept(g, id, client)
  }

  lemma ReportedTwice(h: seq<Event>, id: Text, client: Text)
    ensures Alike(h + [Reported], h + [Reported] + [Reported], id, client)
  {
    LastReceiptAppend(h, Reported, id, client);
    LastReceiptAppend(h + [Reported], Reported, id, client);
    KeptAppend(h, Reported, id, client);
    KeptAppend(h + [Reported], Reported, id, client);
  }

  /** A repeated report changes nothing, neither in the commits nor in what is reported. */
  lemma RepeatedReport(h: seq<Event>, cs: map<Text, Commit>, ds: map<Text, Commit>, r: TTLUReport, q: TTLUReport)
    requires Accounts(cs, h + [Reported]) && Accounts(ds, h + [Reported] + [Reported])
    requires IsReport(r, cs) && IsReport(q, ds)
    ensures cs == ds && r == q
  {
    var once, twice := h + [Reported], h + [Reported] + [Reported];
    forall id, client ensures Alike(once, twice, id, client) {
      ReportedTwice(h, id, client);
    }
    SameAccounts(cs, ds, once, twice);
    ReportUnique(r, q, cs);
  }

  lemma SameAccounts(cs: map<Text, Commit>, ds: map<Text, Commit>, h: seq<Event>, g: seq<Event>)
    requires Accounts(cs, h) && Accounts(ds, g)
    requires forall id, client :: Alike(h, g, id, client)
    ensures cs == ds
  {
    forall id ensures id in cs <==> id in ds {
      assert Alike(h, g, id, []);
    }
    forall id | id in cs ensures cs[id] == ds[id] {
      assert Alike(h, g, id, []);
      forall client ensures Get(cs[id].clients, client) == Get(ds[id].clients, client) {
        assert Alike(h, g, id, client);
      }
      SameClients(cs[id].clients, ds[id].clients);
    }
    SameMap(cs, ds);
  }

  lemma EventOf(h: seq<Event>, g: seq<Event>, i: nat) returns (j: nat)
    requires multiset(h) == multiset(g) && i < |h|
    ensures j < |g| && g[j] == h[i]
  {
    assert h[i] in multiset(g);
    j :| 0 <= j < |g| && g[j] == h[i];
  }

  lemma ReceiptAtMost(h: seq<Event>, g: seq<Event>, id: Text, client: Text)
    requires multiset(h) == multiset(g)
    ensures LastReceipt(h, id, client) <= LastReceipt(g, id, client)
  {
    LastReceiptMeaning(h, id, client);
    LastReceiptMeaning(g, id, client);
    if LastReceipt(h, id, client) > 0.0 {
      var i :| 0 <= i < |h| && Delivers(h[i], id, client) && h[i].receivedAt == LastReceipt(h, id, client);
      var j := EventOf(h, g, i);
    }
  }

  lemma {:induction false} CommitFound(h: seq<Event>, i: nat)
    requires OnceEach(h) && i < |h| && h[i].CommitRecorded? && Commits(h[i], h[i].id)
    ensures CommitOf(h, h[i].id) == Some(h[i])
  {
    var id := h[i].id;
    if CommitOf(h, id).None? {
      CommitMissing(h, id, i);
    } else {
      var j := CommitIndex(h, id);
    }
  }

  lemma {:induction false} CommitMissing(h: seq<Event>, id: Text, i: nat)
    requires CommitOf(h, id).None? && i < |h|
    ensures !Commits(h[i], id)
  {
    if i < |h| - 1 {
      CommitMissing(h[..|h| - 1], id, i);
    }
  }

  lemma SameCommit(h: seq<Event>, g: seq<Event>, id: Text)
    requires multiset(h) == multiset(g) && OnceEach(h) && OnceEach(g)
    ensures CommitOf(h, id) == CommitOf(g, id)
  {
    if CommitOf(h, id).Some? {
      var i := CommitIndex(h, id);
      var j := EventOf(h, g, i);
      CommitFound(g, j);
    } else if CommitOf(g, id).Some? {
      var j := CommitIndex(g, id);
      var i := EventOf(g, h, j);
      CommitFound(h, i);
    }
  }

  /** The delays of a report depend on which events happened, not on their order. */
  lemma ExpectedPermuted(h: seq<Event>, g: seq<Event>, id: Text, client: Text)
    requires multiset(h) == multiset(g) && OnceEach(h) && OnceEach(g)
    ensures Expected(h, id, client) == Expected(g, id, client)
  {
    SameCommit(h, g, id);
    ReceiptAtMost(h, g, id, client);
    ReceiptAtMost(g, h, id, client);
  }

  /** What was observed, without the reports made. */
  ghost function Observed(h: seq<Event>): seq<Event> {
    if h == [] then []
    else Observed(h[..|h| - 1]) + (if h[|h| - 1].Reported? then [] else [h[|h| - 1]])
  }

  lemma ObservedAppend(h: seq<Event>, e: Event)
    ensures Observed(h + [e]) == if e.Reported? then Observed(h) else Observed(h) + [e]
  {
    assert (h + [e])[..|h|] == h;
  }

  lemma {:induction false} ReportsDoNotShow(h: seq<Event>, id: Text, client: Text)
    ensures CommitOf(Observed(h), id) == CommitOf(h, id)
    ensures LastReceipt(Observed(h), id, client) == LastReceipt(h, id, client)
  {
    if h != [] {
      var before, e := h[..|h| - 1], h[|h| - 1];
      assert h == before + [e];
      ReportsDoNotShow(before, id, client);
      ReportDoesNotShow(before, e, id, client);
    }
  }

  lemma ReportDoesNotShow(h: seq<Event>, e: Event, id: Text, client: Text)
    requires CommitOf(Observed(h), id) == CommitOf(h, id)
    requires LastReceipt(Observed(h), id, client) == LastReceipt(h, id, client)
    ensures CommitOf(Observed(h + [e]), id) == CommitOf(h + [e], id)
    ensures LastReceipt(Observed(h + [e]), id, client) == LastReceipt(h + [e], id, client)
  {
    ObservedAppend(h, e);
    LastReceiptAppend(h, e, id, client);
    LastReceiptAppend(Observed(h), e, id, client);
  }

  lemma {:induction false} ObservedOnce(h: seq<Event>)
    requires OnceEach(h)
    ensures OnceEach(Observed(h)) && forall e :: e in Observed(h) ==> e in h
  {
    if h != [] {
      var before, e := h[..|h| - 1], h[|h| - 1];
      assert h == before + [e];
      OnceEachPrefix(before, e);
      ObservedOnce(before);
      forall i, id | 0 <= i < |Observed(before)| && Commits(Observed(before)[i], id) ensures !Commits(e, id) {
        assert Observed(before)[i] in before;
      }
    }
  }

  lemma OnceEachPrefix(h: seq<Event>, e: Event)
    requires OnceEach(h + [e])
    ensures OnceEach(h) && forall x, id :: x in h && Commits(x, id) ==> !Commits(e, id)
  {
    var more := h + [e];
    assert forall i :: 0 <= i < |h| ==> more[i] == h[i];
    assert more[|h|] == e;
  }

  /** Two aggregators that observed the same events, in any orders and with any reports in between, agree after
      their last reports on the commits and in the report. */
  lemma OrderDoesNotMatter(h: seq<Event>, g: seq<Event>, cs: map<Text, Commit>, ds: map<Text, Commit>,
                           r: TTLUReport, q: TTLUReport)
    requires multiset(Observed(h)) == multiset(Observed(g)) && OnceEach(h) && OnceEach(g)
    requires Accounts(cs, h + [Reported]) && Accounts(ds, g + [Reported]) && IsReport(r, cs) && IsReport(q, ds)
    ensures cs == ds && r == q
  {
    OnceEachIsExact(h, cs);
    OnceEachIsExact(g, ds);
    ObservedOnce(h);
    ObservedOnce(g);
    forall id
      ensures CommitOf(h + [Reported], id) == CommitOf(g + [Reported], id)
      ensures forall client :: Expected(h + [Reported], id, client) == Expected(g + [Reported], id, client)
    {
      SameCommit(Observed(h), Observed(g), id);
      forall client ensures Expected(h + [Reported], id, client) == Expected(g + [Reported], id, client) {
        ExpectedPermuted(Observed(h), Observed(g), id, client);
        ExpectedUnreported(h, id, client);
        ExpectedUnreported(g, id, client);
      }
      ExpectedUnreported(h, id, []);
      ExpectedUnreported(g, id, []);
    }
    SameTables(cs, ds, h + [Reported], g + [Reported]);
    ReportUnique(r, q, cs);
  }

  lemma ExpectedUnreported(h: seq<Event>, id: Text, client: Text)
    ensures Expected(h + [Reported], id, client) == Expected(h, id, client) == Expected(Observed(h), id, client)
    ensures CommitOf(h + [Reported], id) == CommitOf(h, id) == CommitOf(Observed(h), id)
  {
    LastReceiptAppend(h, Reported, id, client);
    ReportsDoNotShow(h, id, client);
  }

  lemma SameTables(cs: map<Text, Commit>, ds: map<Text, Commit>, h: seq<Event>, g: seq<Event>)
    requires Exact(cs, h) && Exact(ds, g) && forall id :: CommitOf(h, id) == CommitOf(g, id)
    requires forall id, client :: Expected(h, id, client) == Expected(g, id, client)
    ensures cs == ds
  {
    forall id ensures id in cs <==> id in ds {
      assert CommitOf(h, id) == CommitOf(g, id);
    }
    forall id | id in cs ensures cs[id] == ds[id] {
      assert CommitOf(h, id) == CommitOf(g, id);
      forall client ensures Get(cs[id].clients, client) == Get(ds[id].clients, client) {
        assert Expected(h, id, client) == Expected(g, id, client);
      }
      SameClients(cs[id].clients, ds[id].clients);
    }
    SameMap(cs, ds);
  }

  lemma SameClients(m: map<Text, int>, n: map<Text, int>)
    requires forall client :: Get(m, client) == Get(n, client)
    ensures m == n
  {
    forall client ensures client in m <==> client in n {
      assert Get(m, client) == Get(n, client);
    }
    forall client | client in m ensures m[client] == n[client] {
      assert Get(m, client) == Get(n, client);
    }
    SameMap(m, n);
  }
}
