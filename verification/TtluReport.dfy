/** The second half of `Report` and `exactHistogramReport` (cmd/gonvex-load/ttlu.go): the numbers reported for
    a table of commits, whatever order its maps are iterated in. */
module TtluReport {
  import opened Numbers
  import opened Options
  import opened Texts
  import opened Sorting
  import opened Percentiles

  /** Delays are whole nanoseconds. */
  datatype Commit = Commit(path: Text, committedAtMS: real, clients: map<Text, int>)

  datatype HistogramReport =
    HistogramReport(count: nat, average: int, p50: int, p95: int, p99: int, max: int)

  datatype PathReport = PathReport(commits: nat, propagationSamples: nat, ttlu: HistogramReport)

  datatype TTLUReport = TTLUReport(
    committedMutations: nat,
    commitsWithPropagation: nat,
    commitsWithoutPropagation: nat,
    propagationSamples: nat,
    perClient: HistogramReport,
    acrossCommits: HistogramReport,
    byMutationPath: map<Text, PathReport>)

  // ---------------------------------------------------------------- sums over maps

  ghost function AnyKey<K, V>(m: map<K, V>): (k: K)
    requires m != map[]
    ensures k in m
  {
    var k :| k in m;
    k
  }

  lemma AddThenRemove<K, V>(m: map<K, V>, k: K, v: V)
    requires k !in m
    ensures m[k := v] - {k} == m
  {
  }

  lemma RemoveTwo<K, V>(m: map<K, V>, j: K, k: K)
    ensures m - {j} - {k} == m - {k} - {j}
  {
  }

  /** The delays of one commit, one per client. */
  ghost function Bag<K>(clients: map<K, int>): multiset<int>
    decreases |clients|
  {
    if clients == map[] then multiset{}
    else
      var c := AnyKey(clients);
      multiset{clients[c]} + Bag(clients - {c})
  }

  /** It does not matter which client is taken out first. */
  lemma {:induction false} BagRemove<K>(clients: map<K, int>, c: K)
    requires c in clients
    ensures Bag(clients) == multiset{clients[c]} + Bag(clients - {c})
    decreases |clients|
  {
    var d := AnyKey(clients);
    if c != d {
      BagRemove(clients - {d}, c);
      BagRemove(clients - {c}, d);
      RemoveTwo(clients, c, d);
    }
  }

  lemma BagAdd<K>(clients: map<K, int>, c: K, delay: int)
    requires c !in clients
    ensures Bag(clients[c := delay]) == multiset{delay} + Bag(clients)
  {
    AddThenRemove(clients, c, delay);
    BagRemove(clients[c := delay], c);
  }

  /** The slowest delay, never below zero. */
  ghost predicate IsPeak<K>(clients: map<K, int>, m: int) {
    && m >= 0
    && (forall c :: c in clients ==> clients[c] <= m)
    && (m == 0 || exists c :: c in clients && clients[c] == m)
  }

  ghost function Peak<K>(clients: map<K, int>): (m: int)
    ensures IsPeak(clients, m)
    decreases |clients|
  {
    if clients == map[] then 0
    else
      var c := AnyKey(clients);
      var m := Peak(clients - {c});
      PeakWith(clients, c, m);
      if clients[c] > m then clients[c] else m
  }

  lemma PeakWith<K>(clients: map<K, int>, c: K, m: int)
    requires c in clients && IsPeak(clients - {c}, m)
    ensures IsPeak(clients, if clients[c] > m then clients[c] else m)
  {
    var rest := clients - {c};
    forall d | d in clients ensures d == c || clients[d] <= m {
      if d != c {
        assert d in rest && rest[d] == clients[d];
      }
    }
    if m != 0 {
      var d :| d in rest && rest[d] == m;
      assert d in clients && clients[d] == m;
    }
  }

  lemma PeakAdd<K>(clients: map<K, int>, c: K, delay: int, m: int)
    requires c !in clients && IsPeak(clients, m)
    ensures IsPeak(clients[c := delay], if delay > m then delay else m)
  {
    AddThenRemove(clients, c, delay);
    PeakWith(clients[c := delay], c, m);
  }

  // ---------------------------------------------------------------- the report as a function

  function ExactHistogramReport(values: seq<int>): HistogramReport {
    if values == [] then HistogramReport(0, 0, 0, 0, 0, 0)
    else
      HistogramReport(|values|, Quotient(Sum(values), |values|), NearestRank(values, 0.50), NearestRank(values, 0.95),
                      NearestRank(values, 0.99), SortedInts(values)[|values| - 1])
  }

  /** At least `percent` per cent of the values reach up to `e`, and to no smaller number. */
  ghost predicate IsShare(values: seq<int>, percent: nat, e: int) {
    && e in values
    && CountLE(values, e) * 100 >= percent * |values|
    && forall b :: b < e ==> CountLE(values, b) * 100 < percent * |values|
  }

  /** The quotient, truncated toward zero. */
  predicate IsAverage(sum: int, n: nat, average: int) {
    if sum >= 0 then average * n <= sum < (average + 1) * n else (average - 1) * n < sum <= average * n
  }

  /** What a histogram says about the values, by counting them. */
  ghost predicate Describes(r: HistogramReport, values: seq<int>) {
    && r.count == |values|
    && (if values == [] then r == HistogramReport(0, 0, 0, 0, 0, 0)
        else
          && IsAverage(Sum(values), |values|, r.average)
          && IsShare(values, 50, r.p50) && IsShare(values, 95, r.p95) && IsShare(values, 99, r.p99)
          && r.max in values && (forall v :: v in values ==> v <= r.max)
          && r.p50 <= r.p95 <= r.p99 <= r.max)
  }

  lemma ShareMeaning(values: seq<int>, ratio: real, percent: nat)
    requires values != [] && 0.0 < ratio <= 1.0 && ratio * 100.0 == percent as real
    ensures IsShare(values, percent, NearestRank(values, ratio))
  {
    NearestRankMeaning(values, ratio);
    ShareOfPercentile(values, ratio, percent, NearestRank(values, ratio));
  }

  lemma ShareOfPercentile(values: seq<int>, ratio: real, percent: nat, e: int)
    requires 0.0 < ratio && ratio * 100.0 == percent as real && IsPercentile(values, ratio, e)
    ensures IsShare(values, percent, e)
  {
    Hundredfold(CountLE(values, e), |values|, ratio, percent);
    forall b | b < e ensures CountLE(values, b) * 100 < percent * |values| {
      ShareMissed(CountLE(values, b), |values|, ratio, percent);
    }
  }

  lemma ShareMissed(count: nat, n: nat, ratio: real, percent: nat)
    requires ratio * 100.0 == percent as real && (count as real) < n as real * ratio
    ensures count * 100 < percent * n
  {
    Hundredfold(count, n, ratio, percent);
  }

  lemma Hundredfold(count: nat, n: nat, ratio: real, percent: nat)
    requires ratio * 100.0 == percent as real
    ensures count as real >= n as real * ratio <==> count * 100 >= percent * n
  {
    var share := n as real * ratio;
    ProductAsReal(percent, n);
    ScaledBy(n as real, ratio);
    assert share * 100.0 == (percent * n) as real;
    assert (count * 100) as real == count as real * 100.0;
  }

  lemma ProductAsReal(a: nat, b: nat)
    ensures (a * b) as real == b as real * a as real
  {
  }

  lemma ScaledBy(x: real, y: real)
    ensures x * y * 100.0 == x * (y * 100.0)
  {
  }

  lemma QuotientMeaning(sum: int, n: nat)
    requires n > 0
    ensures IsAverage(sum, n, Quotient(sum, n))
  {
    var q := (if sum >= 0 then sum else -sum) / n;
    assert q * n <= (if sum >= 0 then sum else -sum) < (q + 1) * n;
  }

  lemma LastIsGreatest(values: seq<int>)
    requires values != []
    ensures var m := SortedInts(values)[|values| - 1];
            m in values && forall v :: v in values ==> v <= m
  {
    IntOrder();
    var s := SortedInts(values);
    StableSortSorted(values, IntLeq);
    StableSortMembers(values, IntLeq);
    assert s[|s| - 1] in s;
    forall v | v in values ensures v <= s[|s| - 1] {
      var i :| 0 <= i < |s| && s[i] == v;
      assert i < |s| - 1 ==> IntLeq(s[i], s[|s| - 1]);
    }
  }

  lemma HistogramDescribes(values: seq<int>)
    ensures Describes(ExactHistogramReport(values), values)
  {
    if values != [] {
      QuotientMeaning(Sum(values), |values|);
      ShareMeaning(values, 0.50, 50);
      ShareMeaning(values, 0.95, 95);
      ShareMeaning(values, 0.99, 99);
      LastIsGreatest(values);
      NearestRankMonotone(values, 0.50, 0.95);
      NearestRankMonotone(values, 0.95, 0.99);
    }
  }

  lemma HistogramPermuted(a: seq<int>, b: seq<int>)
    requires multiset(a) == multiset(b)
    ensures ExactHistogramReport(a) == ExactHistogramReport(b)
  {
    assert |a| == |multiset(a)| == |multiset(b)| == |b|;
    if a != [] {
      NearestRankPermuted(a, b, 0.50);
      NearestRankPermuted(a, b, 0.95);
      NearestRankPermuted(a, b, 0.99);
      CountLEPermuted(a, b, 0);
    }
  }

  lemma NonEmptyBag(bag: multiset<int>)
    requires |bag| > 0
    ensures exists x :: x in bag
  {
    if forall x :: bag[x] == 0 {
      assert false;
    }
  }

  /** Some listing of a bag. */
  ghost function Listing(bag: multiset<int>): (s: seq<int>)
    ensures multiset(s) == bag
    decreases |bag|
  {
    if |bag| == 0 then []
    else
      NonEmptyBag(bag);
      var x :| x in bag;
      [x] + Listing(bag - multiset{x})
  }

  ghost function HistogramOf(bag: multiset<int>): HistogramReport {
    ExactHistogramReport(Listing(bag))
  }

  /** What is added up over commits: how many belong to this run, how many of them were delivered, all
      delays, and the time to the last user of each delivered commit. */
  datatype Tally = Tally(named: nat, delivered: nat, delays: multiset<int>, maxima: multiset<int>)

  const NO_TALLY := Tally(0, 0, multiset{}, multiset{})

  ghost function Plus(t: Tally, u: Tally): Tally {
    Tally(t.named + u.named, t.delivered + u.delivered, t.delays + u.delays, t.maxima + u.maxima)
  }

  /** The share of one commit in the tally of `path` (of all paths, for `None`). */
  ghost function ShareOf(commit: Commit, path: Option<Text>): Tally {
    if commit.path == [] || (path.Some? && path.value != commit.path) then NO_TALLY
    else if commit.clients == map[] then Tally(1, 0, multiset{}, multiset{})
    else Tally(1, 1, Bag(commit.clients), multiset{Peak(commit.clients)})
  }

  ghost function Total<K>(commits: map<K, Commit>, path: Option<Text>): Tally
    decreases |commits|
  {
    if commits == map[] then NO_TALLY
    else
      var id := AnyKey(commits);
      Plus(ShareOf(commits[id], path), Total(commits - {id}, path))
  }

  /** It does not matter which commit is taken out first. */
  lemma PlusOrder(a: Tally, b: Tally, t: Tally)
    ensures Plus(a, Plus(b, t)) == Plus(b, Plus(a, t))
  {
  }

  lemma {:induction false} TotalRemove<K>(commits: map<K, Commit>, id: K, path: Option<Text>)
    requires id in commits
    ensures Total(commits, path) == Plus(ShareOf(commits[id], path), Total(commits - {id}, path))
    decreases |commits|
  {
    var first := AnyKey(commits);
    if first != id {
      TotalRemove(commits - {first}, id, path);
      TotalRemove(commits - {id}, first, path);
      RemoveTwo(commits, first, id);
      PlusOrder(ShareOf(commits[id], path), ShareOf(commits[first], path), Total(commits - {id} - {first}, path));
    }
  }

  lemma TotalAdd<K>(part: map<K, Commit>, id: K, commit: Commit, path: Option<Text>)
    requires id !in part
    ensures Total(part[id := commit], path) == Plus(ShareOf(commit, path), Total(part, path))
  {
    var next := part[id := commit];
    AddThenRemove(part, id, commit);
    TotalRemove(next, id, path);
  }

  ghost function PathReportOf(t: Tally): PathReport {
    PathReport(|t.maxima|, |t.delays|, HistogramOf(t.maxima))
  }

  /** What a report says about a table of commits. */
  ghost predicate IsReport<K>(r: TTLUReport, commits: map<K, Commit>) {
    var all := Total(commits, None);
    && r.committedMutations == all.named
    && r.commitsWithPropagation == all.delivered
    && r.committedMutations == r.commitsWithPropagation + r.commitsWithoutPropagation
    && r.propagationSamples == |all.delays|
    && r.perClient == HistogramOf(all.delays)
    && r.acrossCommits == HistogramOf(all.maxima)
    && (forall path :: path in r.byMutationPath <==> Total(commits, Some(path)).delivered > 0)
    && (forall path :: path in r.byMutationPath ==>
          r.byMutationPath[path] == PathReportOf(Total(commits, Some(path))))
  }

  /** A table of commits has one report: no iteration order shows in it. */
  lemma ReportUnique<K>(r: TTLUReport, q: TTLUReport, commits: map<K, Commit>)
    requires IsReport(r, commits) && IsReport(q, commits)
    ensures r == q
  {
    forall path
      ensures path in r.byMutationPath <==> path in q.byMutationPath
      ensures path in r.byMutationPath ==> r.byMutationPath[path] == q.byMutationPath[path]
    {
      assert path in r.byMutationPath <==> Total(commits, Some(path)).delivered > 0;
    }
    SameMap(r.byMutationPath, q.byMutationPath);
  }

  lemma SameMap<K, V>(m: map<K, V>, n: map<K, V>)
    requires forall k :: k in m <==> k in n
    requires forall k :: k in m ==> m[k] == n[k]
    ensures m == n
  {
  }

  lemma TakeOne<K, V>(m: map<K, V>, todo: set<K>, k: K)
    requires k in todo && k in m
    ensures m - (todo - {k}) == (m - todo)[k := m[k]]
    ensures k !in m - todo
  {
  }

  // ---------------------------------------------------------------- the loops

  datatype PathValues = PathValues(maxima: seq<int>, samples: nat)

  method ClientDelays<K(==)>(clients: map<K, int>) returns (delays: seq<int>, maximum: int)
    ensures multiset(delays) == Bag(clients) && maximum == Peak(clients)
  {
    delays, maximum := [], 0;
    var todo := clients.Keys;
    assert clients - todo == map[];
    while todo != {}
      invariant todo <= clients.Keys
      invariant multiset(delays) == Bag(clients - todo)
      invariant IsPeak(clients - todo, maximum)
      decreases todo
    {
      var c :| c in todo;
      var delay := clients[c];
      TakeOne(clients, todo, c);
      BagAdd(clients - todo, c, delay);
      PeakAdd(clients - todo, c, delay, maximum);
      delays := delays + [delay];
      if delay > maximum {
        maximum := delay;
      }
      todo := todo - {c};
    }
    assert clients - todo == clients;
  }

  /** The per-path table says of `path` what the tally says. */
  ghost predicate Tallied(byPath: map<Text, PathValues>, t: Tally, path: Text) {
    && (path in byPath <==> t.delivered > 0)
    && (path in byPath ==> multiset(byPath[path].maxima) == t.maxima && byPath[path].samples == |t.delays|)
  }

  ghost predicate PathTally<K>(byPath: map<Text, PathValues>, part: map<K, Commit>) {
    forall path :: TalliedAt(byPath, part, path)
  }

  ghost predicate TalliedAt<K>(byPath: map<Text, PathValues>, part: map<K, Commit>, path: Text) {
    Tallied(byPath, Total(part, Some(path)), path)
  }

  lemma {:induction false} NothingDelivered<K>(commits: map<K, Commit>, path: Option<Text>)
    requires Total(commits, path).delivered == 0
    ensures Total(commits, path).delays == multiset{} == Total(commits, path).maxima
    decreases |commits|
  {
    if commits != map[] {
      var id := AnyKey(commits);
      NothingDelivered(commits - {id}, path);
    }
  }

  lemma TallyShare(byPath: map<Text, PathValues>, t: Tally, commit: Commit, delays: seq<int>, maximum: int, path: Text)
    requires Tallied(byPath, t, path) && commit.path != [] && commit.clients != map[]
    requires multiset(delays) == Bag(commit.clients) && maximum == Peak(commit.clients)
    requires t.delivered == 0 ==> t.delays == multiset{} == t.maxima
    ensures Tallied(AddValues(byPath, commit.path, delays, maximum), Plus(ShareOf(commit, Some(path)), t), path)
  {
    if path == commit.path {
      assert ShareOf(commit, Some(path)) == Tally(1, 1, multiset(delays), multiset{maximum});
    } else {
      assert ShareOf(commit, Some(path)) == NO_TALLY;
    }
  }

  function AddValues(byPath: map<Text, PathValues>, path: Text, delays: seq<int>, maximum: int): map<Text, PathValues> {
    var values := if path in byPath then byPath[path] else PathValues([], 0);
    byPath[path := PathValues(values.maxima + [maximum], values.samples + |delays|)]
  }

  /** The per-path table takes in one more commit that has been delivered. */
  lemma TallyPath<K>(byPath: map<Text, PathValues>, part: map<K, Commit>, id: K, commit: Commit,
                  delays: seq<int>, maximum: int)
    requires PathTally(byPath, part) && id !in part && commit.path != [] && commit.clients != map[]
    requires multiset(delays) == Bag(commit.clients) && maximum == Peak(commit.clients)
    ensures PathTally(AddValues(byPath, commit.path, delays, maximum), part[id := commit])
  {
    var values, next := AddValues(byPath, commit.path, delays, maximum), part[id := commit];
    forall path ensures TalliedAt(values, next, path)
    {
      var t := Total(part, Some(path));
      assert TalliedAt(byPath, part, path);
      if t.delivered == 0 {
        NothingDelivered(part, Some(path));
      }
      TallyShare(byPath, t, commit, delays, maximum, path);
      TotalAdd(part, id, commit, Some(path));
    }
  }

  lemma SkipPath<K>(byPath: map<Text, PathValues>, part: map<K, Commit>, id: K, commit: Commit)
    requires PathTally(byPath, part) && id !in part && (commit.path == [] || commit.clients == map[])
    ensures PathTally(byPath, part[id := commit])
  {
    var next := part[id := commit];
    forall path ensures TalliedAt(byPath, next, path) {
      assert TalliedAt(byPath, part, path);
      TotalAdd(part, id, commit, Some(path));
    }
  }

  datatype Sums = Sums(committed: nat, withPropagation: nat, without: nat, perClient: seq<int>, maxima: seq<int>,
                       byPath: map<Text, PathValues>)

  ghost function TallyOf(s: Sums): Tally {
    Tally(s.committed, s.withPropagation, multiset(s.perClient), multiset(s.maxima))
  }

  ghost predicate Agrees(s: Sums, all: Tally) {
    TallyOf(s) == all && s.committed == s.withPropagation + s.without
  }

  /** The running totals after the commits of `part`. */
  ghost predicate SumsOf<K>(s: Sums, part: map<K, Commit>) {
    Agrees(s, Total(part, None)) && PathTally(s.byPath, part)
  }

  /** The body of the loop over the commits. */
  method AddCommit<K(==)>(s: Sums, ghost part: map<K, Commit>, ghost id: K, commit: Commit) returns (next: Sums)
    requires SumsOf(s, part) && id !in part
    ensures SumsOf(next, part[id := commit])
  {
    ghost var t := Total(part, None);
    if commit.path == [] {
      next := s;
      AgreesOther(s, commit, t);
      SkipPath(s.byPath, part, id, commit);
    } else if commit.clients == map[] {
      next := AddUndelivered(s);
      AgreesUndelivered(s, commit, t);
      SkipPath(s.byPath, part, id, commit);
    } else {
      var delays, maximum := ClientDelays(commit.clients);
      next := AddDelivered(s, commit, delays, maximum);
      AgreesDelivered(s, commit, t, delays, maximum);
      TallyPath(s.byPath, part, id, commit, delays, maximum);
    }
    NextSums(next, part, id, commit);
  }

  function AddUndelivered(s: Sums): Sums {
    s.(committed := s.committed + 1, without := s.without + 1)
  }

  lemma AgreesOther(s: Sums, commit: Commit, t: Tally)
    requires Agrees(s, t) && commit.path == []
    ensures Agrees(s, Plus(ShareOf(commit, None), t))
  {
  }

  lemma AgreesUndelivered(s: Sums, commit: Commit, t: Tally)
    requires Agrees(s, t) && commit.path != [] && commit.clients == map[]
    ensures Agrees(AddUndelivered(s), Plus(ShareOf(commit, None), t))
  {
    assert ShareOf(commit, None) == Tally(1, 0, multiset{}, multiset{});
  }

  lemma AgreesDelivered(s: Sums, commit: Commit, t: Tally, delays: seq<int>, maximum: int)
    requires Agrees(s, t) && commit.path != [] && commit.clients != map[]
    requires multiset(delays) == Bag(commit.clients) && maximum == Peak(commit.clients)
    ensures Agrees(AddDelivered(s, commit, delays, maximum), Plus(ShareOf(commit, None), t))
  {
  }

  /** What agrees with the tally so far and one more share agrees with the tally after it. */
  lemma NextSums<K>(next: Sums, part: map<K, Commit>, id: K, commit: Commit)
    requires id !in part && Agrees(next, Plus(ShareOf(commit, None), Total(part, None)))
    ensures Agrees(next, Total(part[id := commit], None))
  {
    TotalAdd(part, id, commit, None);
  }

  function AddDelivered(s: Sums, commit: Commit, delays: seq<int>, maximum: int): Sums {
    Sums(s.committed + 1, s.withPropagation + 1, s.without, s.perClient + delays, s.maxima + [maximum],
         AddValues(s.byPath, commit.path, delays, maximum))
  }

  const NO_SUMS := Sums(0, 0, 0, [], [], map[])

  lemma NothingSummed<K>(commits: map<K, Commit>)
    ensures SumsOf(NO_SUMS, commits - commits.Keys)
  {
    var none: map<K, Commit> := map[];
    assert commits - commits.Keys == none;
    forall path ensures TalliedAt(map[], none, path) {
    }
  }

  lemma SumsAtEnd<K>(s: Sums, commits: map<K, Commit>)
    requires SumsOf(s, commits - {})
    ensures SumsOf(s, commits)
  {
    assert commits - {} == commits;
  }

  method SumNext<K(==)>(commits: map<K, Commit>, s: Sums, todo: set<K>, id: K) returns (next: Sums)
    requires todo <= commits.Keys && id in todo && SumsOf(s, commits - todo)
    ensures SumsOf(next, commits - (todo - {id}))
  {
    TakeOne(commits, todo, id);
    next := AddCommit(s, commits - todo, id, commits[id]);
  }

  method SumUp<K(==)>(commits: map<K, Commit>) returns (s: Sums)
    ensures SumsOf(s, commits)
  {
    s := NO_SUMS;
    var todo := commits.Keys;
    NothingSummed(commits);
    while todo != {}
      invariant todo <= commits.Keys
      invariant SumsOf(s, commits - todo)
      decreases todo
    {
      var id :| id in todo;
      s := SumNext(commits, s, todo, id);
      todo := todo - {id};
    }
    SumsAtEnd(s, commits);
  }

  method Summarize<K(==)>(commits: map<K, Commit>) returns (report: TTLUReport)
    ensures IsReport(report, commits)
  {
    var s := SumUp(commits);
    SumsReport(s, commits);
    report := ReportOf(s);
  }

  function ReportOf(s: Sums): TTLUReport {
    TTLUReport(s.committed, s.withPropagation, s.without, |s.perClient|, ExactHistogramReport(s.perClient),
               ExactHistogramReport(s.maxima), map path | path in s.byPath :: ValuesReport(s.byPath[path]))
  }

  function ValuesReport(v: PathValues): PathReport {
    PathReport(|v.maxima|, v.samples, ExactHistogramReport(v.maxima))
  }

  lemma ListingReport(values: seq<int>)
    ensures ExactHistogramReport(values) == HistogramOf(multiset(values))
    ensures |values| == |multiset(values)|
  {
    HistogramPermuted(values, Listing(multiset(values)));
  }

  lemma ValuesReported(v: PathValues, t: Tally)
    requires multiset(v.maxima) == t.maxima && v.samples == |t.delays|
    ensures ValuesReport(v) == PathReportOf(t)
  {
    ListingReport(v.maxima);
  }

  lemma SumsReport<K>(s: Sums, commits: map<K, Commit>)
    requires SumsOf(s, commits)
    ensures IsReport(ReportOf(s), commits)
  {
    ListingReport(s.perClient);
    ListingReport(s.maxima);
    forall path
      ensures path in s.byPath <==> Total(commits, Some(path)).delivered > 0
      ensures path in s.byPath ==> ValuesReport(s.byPath[path]) == PathReportOf(Total(commits, Some(path)))
    {
      assert TalliedAt(s.byPath, commits, path);
      if path in s.byPath {
        ValuesReported(s.byPath[path], Total(commits, Some(path)));
      }
    }
  }

  // ---------------------------------------------------------------- what the numbers mean

  /** The histogram describes the bag, however it is listed. */
  ghost predicate DescribesBag(r: HistogramReport, bag: multiset<int>) {
    forall values :: multiset(values) == bag ==> Describes(r, values)
  }

  lemma BagDescribed(bag: multiset<int>)
    ensures DescribesBag(HistogramOf(bag), bag)
  {
    forall values | multiset(values) == bag ensures Describes(HistogramOf(bag), values) {
      HistogramDescribes(values);
      HistogramPermuted(values, Listing(bag));
    }
  }

  /** Every histogram of a report, by counting: that of all delays, that of the slowest delay of each commit, and those
      of each mutation path. */
  lemma ReportDescribes<K>(r: TTLUReport, commits: map<K, Commit>)
    requires IsReport(r, commits)
    ensures DescribesBag(r.perClient, Total(commits, None).delays)
    ensures DescribesBag(r.acrossCommits, Total(commits, None).maxima)
    ensures forall path :: path in r.byMutationPath ==>
              && DescribesBag(r.byMutationPath[path].ttlu, Total(commits, Some(path)).maxima)
              && r.byMutationPath[path].commits == |Total(commits, Some(path)).maxima|
              && r.byMutationPath[path].propagationSamples == |Total(commits, Some(path)).delays|
  {
    BagDescribed(Total(commits, None).delays);
    BagDescribed(Total(commits, None).maxima);
    forall path | path in r.byMutationPath
      ensures DescribesBag(r.byMutationPath[path].ttlu, Total(commits, Some(path)).maxima)
    {
      BagDescribed(Total(commits, Some(path)).maxima);
    }
  }

  /** The time to the last user reported across commits is the slowest delay of a delivered commit of this
      run, and every such commit is represented. */
  lemma {:induction false} MaximaAreLastUsers<K>(commits: map<K, Commit>, x: int)
    ensures x in Total(commits, None).maxima
            <==> exists id :: id in commits && commits[id].path != [] && commits[id].clients != map[]
                             && x == Peak(commits[id].clients)
    decreases |commits|
  {
    if commits != map[] {
      var first := AnyKey(commits);
      var rest := commits - {first};
      MaximaAreLastUsers(rest, x);
      forall id | id in rest ensures rest[id] == commits[id] {}
      assert forall id :: id in commits ==> id == first || id in rest;
    }
  }

  /** The commit belongs to this run, and to the path if one is asked for. */
  predicate Counted(commit: Commit, path: Option<Text>) {
    commit.path != [] && (path.None? || path.value == commit.path)
  }

  /** The keys whose value passes a test. */
  ghost function Which<K, V(!new)>(m: map<K, V>, test: V -> bool): set<K> {
    set k | k in m && test(m[k])
  }

  lemma WhichWithout<K, V(!new)>(m: map<K, V>, k: K, test: V -> bool)
    requires k in m
    ensures |Which(m, test)| == |Which(m - {k}, test)| + (if test(m[k]) then 1 else 0)
  {
    assert Which(m, test) == Which(m - {k}, test) + (if test(m[k]) then {k} else {});
  }

  function IsCounted(path: Option<Text>): Commit -> bool {
    (c: Commit) => Counted(c, path)
  }

  function IsDelivered(path: Option<Text>): Commit -> bool {
    (c: Commit) => Counted(c, path) && c.clients != map[]
  }

  /** Delivered, with `x` for the slowest delay. */
  ghost function IsSlowest(path: Option<Text>, x: int): Commit -> bool {
    (c: Commit) => Counted(c, path) && c.clients != map[] && Peak(c.clients) == x
  }

  function Is(x: int): int -> bool {
    (delay: int) => delay == x
  }

  /** The commits and clients with delay `x`. */
  ghost function PairsWith<K>(commits: map<K, Commit>, path: Option<Text>, x: int): set<(K, Text)> {
    set id, client | id in commits && Counted(commits[id], path) && client in Which(commits[id].clients, Is(x))
      :: (id, client)
  }

  lemma {:induction false} BagCounts<K>(clients: map<K, int>, x: int)
    ensures Bag(clients)[x] == |Which(clients, Is(x))|
    decreases |clients|
  {
    if clients == map[] {
      assert Which(clients, Is(x)) == {};
    } else {
      var c := AnyKey(clients);
      BagCounts(clients - {c}, x);
      WhichWithout(clients, c, Is(x));
    }
  }

  lemma {:induction false} PairedSize<K>(id: K, clients: set<Text>)
    ensures |Paired(id, clients)| == |clients|
    decreases |clients|
  {
    if clients != {} {
      var c :| c in clients;
      PairedSize(id, clients - {c});
      assert Paired(id, clients) == Paired(id, clients - {c}) + {(id, c)};
    }
  }

  ghost function Paired<K>(id: K, clients: set<Text>): set<(K, Text)> {
    set client | client in clients :: (id, client)
  }

  lemma PairsSplit<K>(commits: map<K, Commit>, id: K, path: Option<Text>, x: int)
    requires id in commits
    ensures PairsWith(commits, path, x)
         == PairsWith(commits - {id}, path, x)
            + (if Counted(commits[id], path) then Paired(id, Which(commits[id].clients, Is(x))) else {})
  {
  }

  lemma PairsWithout<K>(commits: map<K, Commit>, id: K, path: Option<Text>, x: int)
    requires id in commits
    ensures |PairsWith(commits, path, x)|
         == |PairsWith(commits - {id}, path, x)|
            + (if Counted(commits[id], path) then |Which(commits[id].clients, Is(x))| else 0)
  {
    var rest, paired := PairsWith(commits - {id}, path, x), Paired(id, Which(commits[id].clients, Is(x)));
    PairsSplit(commits, id, path, x);
    PairedSize(id, Which(commits[id].clients, Is(x)));
    forall p | p in rest ensures p.0 != id {
    }
    assert rest !! paired;
  }

  /** What one commit adds. */
  lemma ShareCounts(commit: Commit, path: Option<Text>, x: int)
    ensures var t := ShareOf(commit, path);
            && t.named == (if IsCounted(path)(commit) then 1 else 0)
            && t.delivered == (if IsDelivered(path)(commit) then 1 else 0)
            && t.maxima[x] == (if IsSlowest(path, x)(commit) then 1 else 0)
            && t.delays[x] == (if Counted(commit, path) then Bag(commit.clients)[x] else 0)
  {
  }

  lemma {:induction false} CommitsCount<K>(commits: map<K, Commit>, path: Option<Text>, x: int)
    ensures var t := Total(commits, path);
            && t.named == |Which(commits, IsCounted(path))|
            && t.delivered == |Which(commits, IsDelivered(path))|
            && t.maxima[x] == |Which(commits, IsSlowest(path, x))|
    decreases |commits|
  {
    if commits == map[] {
      NoneCount<K>(path, x);
    } else {
      var id := AnyKey(commits);
      CommitsCount(commits - {id}, path, x);
      ShareCounts(commits[id], path, x);
      WhichWithout(commits, id, IsCounted(path));
      WhichWithout(commits, id, IsDelivered(path));
      WhichWithout(commits, id, IsSlowest(path, x));
    }
  }

  lemma NoneCount<K>(path: Option<Text>, x: int)
    ensures Which<K, Commit>(map[], IsCounted(path)) == {} == Which<K, Commit>(map[], IsDelivered(path))
    ensures Which<K, Commit>(map[], IsSlowest(path, x)) == {} && PairsWith<K>(map[], path, x) == {}
  {
  }

  lemma {:induction false} PairsCount<K>(commits: map<K, Commit>, path: Option<Text>, x: int)
    ensures Total(commits, path).delays[x] == |PairsWith(commits, path, x)|
    decreases |commits|
  {
    if commits == map[] {
      NoneCount<K>(path, x);
    } else {
      var id := AnyKey(commits);
      PairsCount(commits - {id}, path, x);
      ShareCounts(commits[id], path, x);
      PairsWithout(commits, id, path, x);
      BagCounts(commits[id].clients, x);
    }
  }

  /** What the sums of a report count: the commits of this run, those of them that were delivered, for every number the
      delivered commits whose slowest delay it is, and the commits and clients whose delay it is. */
  lemma TallyCounts<K>(commits: map<K, Commit>, path: Option<Text>, x: int)
    ensures var t := Total(commits, path);
            && t.named == |Which(commits, IsCounted(path))|
            && t.delivered == |Which(commits, IsDelivered(path))|
            && t.maxima[x] == |Which(commits, IsSlowest(path, x))|
            && t.delays[x] == |PairsWith(commits, path, x)|
  {
    CommitsCount(commits, path, x);
    PairsCount(commits, path, x);
  }
}
