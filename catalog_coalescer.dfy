/**
 * The router-side `ConfigQueryCoalescer`: requests for the chunks of one
 * namespace that arrive together share one query against the config server,
 * run from the smallest version any of them asked for, and each waiter keeps
 * the chunks at or above its own version.  The waiting itself (mutex,
 * condition variable, window and timeouts) is not modelled: `Arrive` is the
 * synchronous part of `getChunks` up to the point where it waits, and
 * `Complete` is `executeAndDistribute` followed by the wake-up of the
 * group's waiters, each keeping its filtered share of the shared result.
 * That last part is the evident intent rather than what the code does: the
 * code erases the group in the same critical section that marks its waiters
 * done, so a woken waiter never finds the shared result and returns its
 * empty vector (`AnswerAsWritten`, `WakeLosesChunks`).
 */
module CatalogCoalescer {
  import opened Wrappers
  import opened Bytes
  import opened BsonTree
  import opened ChunkVersion
  import opened ErrorCodes

  /** `ConfigQueryCoalescer::Config`; durations are in milliseconds. */
  datatype Config = Config(coalescingWindow: int, maxWaitTime: int, maxWaitersPerGroup: nat,
                           adaptiveWindow: bool, minWindow: int, maxWindow: int, maxVersionGap: u32)

  /** The default constructor of `Config`. */
  const DEFAULT_CONFIG: Config := Config(5, 100, 1000, true, 2, 20, 500)

  /** The counters of `Stats` (unsigned 64-bit in the source, unbounded here). */
  datatype Stats = Stats(totalRequests: nat, actualQueries: nat, coalescedRequests: nat,
                         timeoutRequests: nat, overflowRequests: nat, versionGapSkippedRequests: nat,
                         activeGroups: nat, waitingRequests: nat, peakWaitingRequests: nat)

  const ZERO_STATS: Stats := Stats(0, 0, 0, 0, 0, 0, 0, 0, 0)

  /** A coalescing group: the version it will query from and the versions its waiters asked for. */
  datatype Group = Group(minVersion: ChunkVersionLight, waiters: seq<ChunkVersionLight>,
                         queryInProgress: bool, queryCompleted: bool)

  type QueryResult = Result<seq<Doc>, ErrorCode>

  /** The query executor callback: the chunks of a namespace from a version on. */
  type QueryExecutor = (string, ChunkVersionLight) -> QueryResult

  // ---------------------------------------------------------------------
  // filterResults
  // ---------------------------------------------------------------------

  /** Whether `filterResults` keeps a chunk for a waiter that asked from `requested`. */
  predicate Keeps(chunk: Doc, requested: ChunkVersionLight)
  {
    AtLeast(FromBson(chunk, "lastmod"), requested)
  }

  /** The chunks with `fromBSON(chunk) >= requested`, in their original order. */
  function Kept(chunks: seq<Doc>, requested: ChunkVersionLight): (r: seq<Doc>)
    ensures |r| <= |chunks|
  {
    if |chunks| == 0 then []
    else
      var last := chunks[|chunks| - 1];
      Kept(chunks[..|chunks| - 1], requested) + (if Keeps(last, requested) then [last] else [])
  }

  /** One more chunk of the input: it is appended exactly when it is kept. */
  lemma KeptStep(chunks: seq<Doc>, i: nat, requested: ChunkVersionLight)
    requires i < |chunks|
    ensures Kept(chunks[..i + 1], requested) ==
              Kept(chunks[..i], requested) + (if Keeps(chunks[i], requested) then [chunks[i]] else [])
  {
    assert chunks[..i + 1][..i] == chunks[..i];
  }

  /** `filterResults`: one pass over the shared result, copying the chunks the waiter needs. */
  method FilterResults(allResults: seq<Doc>, requested: ChunkVersionLight) returns (filtered: seq<Doc>)
    ensures filtered == Kept(allResults, requested)
  {
    filtered := [];
    var i := 0;
    while i < |allResults|
      invariant 0 <= i <= |allResults|
      invariant filtered == Kept(allResults[..i], requested)
    {
      var chunk := allResults[i];
      KeptStep(allResults, i, requested);
      if AtLeast(FromBson(chunk, "lastmod"), requested) {
        filtered := filtered + [chunk];
      }
      i := i + 1;
    }
    assert allResults[..|allResults|] == allResults;
  }

  /** Filtering distributes over concatenation: order is kept and nothing is reordered. */
  lemma {:induction false} KeptAppend(a: seq<Doc>, b: seq<Doc>, requested: ChunkVersionLight)
    ensures Kept(a + b, requested) == Kept(a, requested) + Kept(b, requested)
    decreases |b|
  {
    if |b| == 0 {
      assert a + b == a;
    } else {
      var b' := b[..|b| - 1];
      assert (a + b)[..|a + b| - 1] == a + b';
      KeptAppend(a, b', requested);
    }
  }

  /** A chunk survives exactly when it is in the input and is `>=` the requested version. */
  lemma {:induction false} KeptMembers(chunks: seq<Doc>, requested: ChunkVersionLight, c: Doc)
    ensures c in Kept(chunks, requested) <==> c in chunks && Keeps(c, requested)
  {
    if |chunks| > 0 {
      var init := chunks[..|chunks| - 1];
      assert chunks == init + [chunks[|chunks| - 1]];
      KeptMembers(init, requested, c);
    }
  }

  /** A waiter never receives a chunk of another epoch. */
  lemma KeptSameEpoch(chunks: seq<Doc>, requested: ChunkVersionLight, c: Doc)
    requires c in Kept(chunks, requested)
    ensures FromBson(c, "lastmod").epoch == requested.epoch
    ensures !LexLess(FromBson(c, "lastmod"), requested)
  {
    KeptMembers(chunks, requested, c);
    AtLeastMeaning(FromBson(c, "lastmod"), requested);
  }

  /**
   * Coalescing is exact: filtering a result fetched from a lower version
   * `from` gives what fetching from the waiter's own version would have.
   */
  lemma {:induction false} CoalescedFilterExact(chunks: seq<Doc>, from: ChunkVersionLight, w: ChunkVersionLight)
    requires AtLeast(w, from)
    ensures Kept(Kept(chunks, from), w) == Kept(chunks, w)
  {
    if |chunks| > 0 {
      var init := chunks[..|chunks| - 1];
      var last := chunks[|chunks| - 1];
      CoalescedFilterExact(init, from, w);
      AtLeastPreorder(FromBson(last, "lastmod"), w, from);
      KeptAppend(Kept(init, from), if Keeps(last, from) then [last] else [], w);
      if Keeps(last, from) {
        assert [last][..0] == [];
      }
    }
  }

  // ---------------------------------------------------------------------
  // getAdaptiveWindow
  // ---------------------------------------------------------------------

  /** `getAdaptiveWindow`: the coalescing window chosen from the number of waiting requests. */
  function AdaptiveWindow(c: Config, waiting: nat): (ms: int)
  {
    if !c.adaptiveWindow then c.coalescingWindow
    else if waiting < 10 then c.minWindow
    else if waiting < 50 then c.coalescingWindow
    else if waiting < 100 then 10
    else c.maxWindow
  }

  /**
   * With bounds ordered `minWindow <= coalescingWindow <= 10 <= maxWindow`,
   * the adaptive window stays within [minWindow, maxWindow] and never
   * shrinks as the load grows; without adaptation it is constant.
   */
  lemma AdaptiveWindowMonotone(c: Config, w1: nat, w2: nat)
    requires c.minWindow <= c.coalescingWindow <= 10 <= c.maxWindow
    requires w1 <= w2
    ensures c.minWindow <= AdaptiveWindow(c, w1) <= c.maxWindow
    ensures AdaptiveWindow(c, w1) <= AdaptiveWindow(c, w2)
    ensures !c.adaptiveWindow ==> AdaptiveWindow(c, w1) == AdaptiveWindow(c, w2) == c.coalescingWindow
  {
  }

  /** Under the default configuration the window moves through 2, 5, 10 and 20 ms. */
  lemma DefaultWindows(waiting: nat)
    ensures AdaptiveWindow(DEFAULT_CONFIG, waiting) in {2, 5, 10, 20}
    ensures waiting < 10 <==> AdaptiveWindow(DEFAULT_CONFIG, waiting) == 2
    ensures waiting >= 100 <==> AdaptiveWindow(DEFAULT_CONFIG, waiting) == 20
  {
  }

  // ---------------------------------------------------------------------
  // Follower decisions
  // ---------------------------------------------------------------------

  /** The absolute difference of the packed versions; the epoch plays no part. */
  function VersionGap(a: ChunkVersionLight, b: ChunkVersionLight): (g: nat)
  {
    if ToLong(a) > ToLong(b) then ToLong(a) - ToLong(b) else ToLong(b) - ToLong(a)
  }

  /** The gap is symmetric and is zero exactly for equal (major, minor). */
  lemma GapZero(a: ChunkVersionLight, b: ChunkVersionLight)
    ensures VersionGap(a, b) == VersionGap(b, a)
    ensures VersionGap(a, b) == 0 <==> a.major == b.major && a.minor == b.minor
  {
    ToLongInjective(a, b);
  }

  /** Within one major version the gap is the distance between the minors. */
  lemma GapSameMajor(a: ChunkVersionLight, b: ChunkVersionLight)
    requires a.major == b.major
    ensures VersionGap(a, b) == if a.minor > b.minor then a.minor - b.minor else b.minor - a.minor
  {
  }

  /**
   * A request of a higher major version is more than `limit` away unless the
   * lower version's minor is within `limit` of the top of its 32-bit range.
   */
  lemma GapAcrossMajors(a: ChunkVersionLight, b: ChunkVersionLight, limit: nat)
    requires a.major < b.major
    requires a.minor + limit < TWO_32
    ensures VersionGap(a, b) > limit
  {
    assert (b.major - a.major) * TWO_32 >= TWO_32;
  }

  /** Adjacent majors can be only 1 apart: 1|4294967295 and 2|0 are neighbours once packed. */
  lemma GapAdjacentMajors(e: seq<byte>)
    ensures VersionGap(ChunkVersionLight(1, 0xFFFF_FFFF, e), ChunkVersionLight(2, 0, e)) == 1
  {
  }

  datatype Decision = Overflow | VersionGapTooLarge | JoinGroup

  /** What `getChunks` does with a request for a namespace that already has a group. */
  function Decide(c: Config, g: Group, since: ChunkVersionLight): Decision
  {
    if |g.waiters| >= c.maxWaitersPerGroup then Overflow
    else if VersionGap(g.minVersion, since) > c.maxVersionGap then VersionGapTooLarge
    else JoinGroup
  }

  /** The group after a request joins: `minVersion` drops to the request when it is `<`. */
  function Joined(g: Group, since: ChunkVersionLight): (r: Group)
  {
    g.(minVersion := if Less(since, g.minVersion) then since else g.minVersion,
       waiters := g.waiters + [since])
  }

  /**
   * A full group turns every request away whatever its version (overflow is
   * checked first), and a request joins exactly when the group has room and
   * the gap is within bounds.
   */
  lemma DecideOrder(c: Config, g: Group, since: ChunkVersionLight)
    ensures |g.waiters| >= c.maxWaitersPerGroup ==> Decide(c, g, since) == Overflow
    ensures Decide(c, g, since) == VersionGapTooLarge ==>
              |g.waiters| < c.maxWaitersPerGroup && VersionGap(g.minVersion, since) > c.maxVersionGap
    ensures Decide(c, g, since) == JoinGroup <==>
              |g.waiters| < c.maxWaitersPerGroup && VersionGap(g.minVersion, since) <= c.maxVersionGap
  {
  }

  /** Every waiter asked from `minVersion` or later, so the shared query covers it. */
  predicate MinCovers(g: Group)
  {
    forall i :: 0 <= i < |g.waiters| ==> AtLeast(g.waiters[i], g.minVersion)
  }

  /** Joining keeps the group within its waiter cap. */
  lemma JoinWithinCap(c: Config, g: Group, since: ChunkVersionLight)
    requires Decide(c, g, since) == JoinGroup
    ensures |Joined(g, since).waiters| <= c.maxWaitersPerGroup
    ensures Joined(g, since).minVersion == since || Joined(g, since).minVersion == g.minVersion
  {
  }

  /** A request of the group's epoch keeps every waiter covered by the group's `minVersion`. */
  lemma JoinKeepsCover(g: Group, since: ChunkVersionLight)
    requires MinCovers(g)
    requires since.epoch == g.minVersion.epoch
    ensures MinCovers(Joined(g, since))
  {
    var r := Joined(g, since);
    forall i | 0 <= i < |r.waiters|
      ensures AtLeast(r.waiters[i], r.minVersion)
    {
      if i < |g.waiters| {
        assert r.waiters[i] == g.waiters[i];
        AtLeastPreorder(g.waiters[i], g.minVersion, r.minVersion);
      } else {
        assert r.waiters[i] == since;
      }
    }
  }

  /**
   * A request of another epoch still joins (the gap ignores epochs) and
   * replaces `minVersion`, after which an earlier waiter is no longer covered.
   */
  lemma JoinAcrossEpochs(e1: seq<byte>, e2: seq<byte>)
    requires e1 != e2
    ensures var g := Group(ChunkVersionLight(1, 0, e1), [ChunkVersionLight(1, 0, e1)], false, false);
            var since := ChunkVersionLight(1, 0, e2);
            MinCovers(g) && Decide(DEFAULT_CONFIG, g, since) == JoinGroup &&
            Joined(g, since).minVersion == since && !MinCovers(Joined(g, since))
  {
    var g := Group(ChunkVersionLight(1, 0, e1), [ChunkVersionLight(1, 0, e1)], false, false);
    var since := ChunkVersionLight(1, 0, e2);
    assert Joined(g, since).waiters[0] == g.waiters[0];
  }

  /** What a waiter gets: the executor's error, or its own slice of the shared chunks. */
  function Answer(result: QueryResult, w: ChunkVersionLight): QueryResult
  {
    if result.Err? then result else Ok(Kept(result.value, w))
  }

  /**
   * When the executor returns the stored chunks from the requested version
   * on, every covered waiter of a group receives exactly what a query of its
   * own would have returned.
   */
  lemma CoalescedAnswerExact(store: seq<Doc>, g: Group, i: nat)
    requires MinCovers(g) && i < |g.waiters|
    ensures Answer(Ok(Kept(store, g.minVersion)), g.waiters[i]) == Ok(Kept(store, g.waiters[i]))
  {
    CoalescedFilterExact(store, g.minVersion, g.waiters[i]);
  }

  /**
   * What a woken waiter returns: the query's error, else its filtered share
   * of the shared result when it picked up the pointer to it, else its own
   * result vector, which nothing ever fills.
   */
  function WakeReturn(result: QueryResult, shared: Option<seq<Doc>>, w: ChunkVersionLight): QueryResult
  {
    if result.Err? then result
    else if shared.Some? then Ok(Kept(shared.value, w))
    else Ok([])
  }

  /**
   * As written: `executeAndDistribute` erases the group under the same lock
   * that marks its waiters done, so every wait predicate finds no group,
   * returns before looking for its own entry and leaves `sharedResult` null.
   */
  function AnswerAsWritten(result: QueryResult, w: ChunkVersionLight): QueryResult
  {
    WakeReturn(result, None, w)
  }

  /**
   * The intended answer is the wake-up that does pick up the shared result;
   * as written, a successful query reaches no waiter: each one gets an empty
   * list, even when chunks at or above its version were fetched.  An error
   * reaches every waiter either way.
   */
  lemma WakeLosesChunks(result: QueryResult, w: ChunkVersionLight)
    ensures Answer(result, w) == WakeReturn(result, if result.Ok? then Some(result.value) else None, w)
    ensures result.Ok? ==> AnswerAsWritten(result, w) == Ok([])
    ensures result.Err? ==> AnswerAsWritten(result, w) == Answer(result, w) == result
    ensures result.Ok? && Kept(result.value, w) != [] ==> AnswerAsWritten(result, w) != Answer(result, w)
  {
  }

  /**
   * The single-request case of the tests: ten chunks stored from version
   * (0,0) on, one request from (0,0).  The intended answer holds the ten
   * chunks; the code as written answers with an empty list.
   */
  lemma SingleRequestAsWritten(chunks: seq<Doc>, w: ChunkVersionLight)
    requires |chunks| == 10
    requires forall i :: 0 <= i < |chunks| ==> Keeps(chunks[i], w)
    ensures Answer(Ok(chunks), w) == Ok(chunks)
    ensures AnswerAsWritten(Ok(chunks), w) == Ok([])
  {
    KeptAll(chunks, w);
  }

  lemma {:induction false} KeptAll(chunks: seq<Doc>, w: ChunkVersionLight)
    requires forall i :: 0 <= i < |chunks| ==> Keeps(chunks[i], w)
    ensures Kept(chunks, w) == chunks
  {
    if |chunks| > 0 {
      var init := chunks[..|chunks| - 1];
      assert chunks == init + [chunks[|chunks| - 1]];
      KeptAll(init, w);
    }
  }

  /** The distribution loop: every waiter, in order, gets the error or its filtered share. */
  method Distribute(result: QueryResult, waiters: seq<ChunkVersionLight>) returns (answers: seq<QueryResult>)
    ensures |answers| == |waiters|
    ensures forall i :: 0 <= i < |answers| ==> answers[i] == Answer(result, waiters[i])
  {
    answers := [];
    var i := 0;
    while i < |waiters|
      invariant 0 <= i <= |waiters|
      invariant |answers| == i
      invariant forall k :: 0 <= k < i ==> answers[k] == Answer(result, waiters[k])
    {
      if result.Err? {
        answers := answers + [result];
      } else {
        var mine := FilterResults(result.value, waiters[i]);
        answers := answers + [Ok(mine)];
      }
      i := i + 1;
    }
  }

  // ---------------------------------------------------------------------
  // The coalescer
  // ---------------------------------------------------------------------

  datatype Arrival =
    | Refused(code: ErrorCode)       // returned to the caller at once
    | Leading(window: int)           // created the group; waits `window` ms before querying
    | Independent(why: Decision)     // runs its own query through the executor
    | Waiting                        // joined a group and waits for its result

  /** The counters after one more request starts waiting. */
  function Enqueued(s: Stats): (r: Stats)
    ensures r.waitingRequests == s.waitingRequests + 1
    ensures r.peakWaitingRequests >= r.waitingRequests && r.peakWaitingRequests >= s.peakWaitingRequests
  {
    var waiting := s.waitingRequests + 1;
    s.(waitingRequests := waiting,
       peakWaitingRequests := if waiting > s.peakWaitingRequests then waiting else s.peakWaitingRequests)
  }

  /** Some namespace of a non-empty group table. */
  ghost function AnyNamespace(m: map<string, Group>): (ns: string)
    requires m != map[]
    ensures ns in m
  {
    var ns :| ns in m; ns
  }

  /** The number of waiters over all groups, which `waitingRequestCount` adds up. */
  ghost function TotalWaiters(m: map<string, Group>): nat
    decreases |m|
  {
    if m == map[] then 0
    else
      var ns := AnyNamespace(m);
      |m[ns].waiters| + TotalWaiters(m - {ns})
  }

  /** The count does not depend on which namespace is taken first. */
  lemma {:induction false} TotalWaitersRemove(m: map<string, Group>, ns: string)
    requires ns in m
    ensures TotalWaiters(m) == |m[ns].waiters| + TotalWaiters(m - {ns})
    decreases |m|
  {
    var first := AnyNamespace(m);
    if first != ns {
      TotalWaitersRemove(m - {first}, ns);
      TotalWaitersRemove(m - {ns}, first);
      assert m - {first} - {ns} == m - {ns} - {first};
    }
  }

  /** A new namespace's group adds its waiters and one group. */
  lemma AddGroup(m: map<string, Group>, ns: string, g: Group)
    requires ns !in m
    ensures TotalWaiters(m[ns := g]) == TotalWaiters(m) + |g.waiters|
    ensures |m[ns := g]| == |m| + 1
  {
    TotalWaitersRemove(m[ns := g], ns);
    assert m[ns := g] - {ns} == m;
  }

  /** Replacing a namespace's group changes the count by the difference in waiters. */
  lemma ReplaceGroup(m: map<string, Group>, ns: string, g: Group)
    requires ns in m
    ensures TotalWaiters(m[ns := g]) + |m[ns].waiters| == TotalWaiters(m) + |g.waiters|
    ensures |m[ns := g]| == |m|
  {
    TotalWaitersRemove(m[ns := g], ns);
    TotalWaitersRemove(m, ns);
    assert m[ns := g] - {ns} == m - {ns};
    assert m[ns := g].Keys == m.Keys;
  }

  /** Retiring a namespace's group removes its waiters and one group. */
  lemma DropGroup(m: map<string, Group>, ns: string)
    requires ns in m
    ensures TotalWaiters(m - {ns}) + |m[ns].waiters| == TotalWaiters(m)
    ensures |m - {ns}| + 1 == |m|
  {
    TotalWaitersRemove(m, ns);
    assert (m - {ns}).Keys == m.Keys - {ns};
  }

  /**
   * The counters agree with the table: `waitingRequests` is the number of
   * waiters of all groups, and every request counted so far is either a
   * query (independent, or a leader that has woken up), a coalesced
   * request, or the leader of a group still in the table.  With no group
   * left this is the tests' `totalRequests == actualQueries + coalescedRequests`.
   */
  ghost predicate Accounted(s: Stats, groups: map<string, Group>)
  {
    s.waitingRequests == TotalWaiters(groups) &&
    s.totalRequests == s.actualQueries + s.coalescedRequests + |groups|
  }

  /**
   * The coalescer's invariant on its values: every group has between one
   * waiter and the configured cap, the peak never falls below the current
   * number of waiters, `activeGroups` mirrors the table while running, and
   * the counters are accounted for.
   */
  ghost predicate TableOk(c: Config, groups: map<string, Group>, s: Stats, isShutdown: bool)
  {
    (forall ns :: ns in groups ==> 1 <= |groups[ns].waiters| <= Max(1, c.maxWaitersPerGroup)) &&
    s.peakWaitingRequests >= s.waitingRequests &&
    (!isShutdown ==> s.activeGroups == |groups|) &&
    Accounted(s, groups)
  }

  /** A request for a namespace without a group starts one and keeps the invariant. */
  lemma NewGroupKeepsTable(c: Config, groups: map<string, Group>, s: Stats, ns: string, since: ChunkVersionLight)
    requires TableOk(c, groups, s, false) && ns !in groups
    ensures var g := groups[ns := Group(since, [since], false, false)];
            TableOk(c, g, Enqueued(s.(totalRequests := s.totalRequests + 1, activeGroups := |g|)), false)
  {
    AddGroup(groups, ns, Group(since, [since], false, false));
  }

  /** A request that runs its own query leaves the table alone and keeps the invariant. */
  lemma IndependentKeepsTable(c: Config, groups: map<string, Group>, s: Stats, t: Stats)
    requires TableOk(c, groups, s, false)
    requires t.totalRequests == s.totalRequests + 1 && t.actualQueries == s.actualQueries + 1
    requires t.coalescedRequests == s.coalescedRequests && t.waitingRequests == s.waitingRequests
    requires t.peakWaitingRequests == s.peakWaitingRequests && t.activeGroups == s.activeGroups
    ensures TableOk(c, groups, t, false)
  {
  }

  /** A request that joins a group with room keeps the invariant. */
  lemma JoinKeepsTable(c: Config, groups: map<string, Group>, s: Stats, ns: string, since: ChunkVersionLight)
    requires TableOk(c, groups, s, false) && ns in groups
    requires |groups[ns].waiters| < c.maxWaitersPerGroup
    ensures var counted := s.(totalRequests := s.totalRequests + 1);
            TableOk(c, groups[ns := Joined(groups[ns], since)],
                    Enqueued(counted).(coalescedRequests := counted.coalescedRequests + 1), false)
  {
    var g := Joined(groups[ns], since);
    ReplaceGroup(groups, ns, g);
    var m := groups[ns := g];
    forall k | k in m
      ensures 1 <= |m[k].waiters| <= Max(1, c.maxWaitersPerGroup)
    {
      if k != ns {
        assert m[k] == groups[k];
      }
    }
  }

  lemma IdleAccounting(s: Stats)
    requires Accounted(s, map[])
    ensures s.totalRequests == s.actualQueries + s.coalescedRequests
    ensures s.waitingRequests == 0
  {
  }

  class Coalescer {
    const config: Config
    var groups: map<string, Group>
    var stats: Stats
    var isShutdown: bool
    var executor: Option<QueryExecutor>

    /**
     * Every group has between one waiter and its cap (the creator always
     * gets in), the peak is at least the current number of waiters, until
     * shutdown `activeGroups` counts the groups, and the counters account
     * for every request.
     */
    ghost predicate Valid()
      reads this
    {
      TableOk(config, groups, stats, isShutdown)
    }

    constructor(config: Config)
      ensures Valid()
      ensures this.config == config && groups == map[] && stats == ZERO_STATS
      ensures !isShutdown && executor == None
    {
      this.config := config;
      groups := map[];
      stats := ZERO_STATS;
      isShutdown := false;
      executor := None;
    }

    /** `setQueryExecutor`. */
    method SetQueryExecutor(f: QueryExecutor)
      requires Valid()
      modifies this
      ensures Valid()
      ensures executor == Some(f)
      ensures groups == old(groups) && stats == old(stats) && isShutdown == old(isShutdown)
    {
      executor := Some(f);
    }

    /**
     * `getChunks` up to the point where it waits: refuse after shutdown,
     * otherwise count the request and either create the namespace's group,
     * run independently (overflow first, then version gap) or join.
     */
    method Arrive(ns: string, since: ChunkVersionLight) returns (outcome: Arrival)
      requires Valid()
      modifies this
      ensures Valid()
      ensures isShutdown == old(isShutdown) && executor == old(executor)
      ensures old(isShutdown) ==>
                outcome == Refused(ShutdownInProgress) && groups == old(groups) && stats == old(stats)
      ensures !old(isShutdown) && ns !in old(groups) ==>
                groups == old(groups)[ns := Group(since, [since], false, false)] &&
                stats == Enqueued(old(stats).(totalRequests := old(stats).totalRequests + 1,
                                              activeGroups := |groups|)) &&
                outcome == Leading(AdaptiveWindow(config, stats.waitingRequests))
      ensures !old(isShutdown) && ns in old(groups) ==>
                var d := Decide(config, old(groups)[ns], since);
                var counted := old(stats).(totalRequests := old(stats).totalRequests + 1);
                match d
                case Overflow =>
                  groups == old(groups) &&
                  stats == counted.(overflowRequests := counted.overflowRequests + 1,
                                    actualQueries := counted.actualQueries + 1) &&
                  outcome == (if executor.None? then Refused(BadValue) else Independent(Overflow))
                case VersionGapTooLarge =>
                  groups == old(groups) &&
                  stats == counted.(versionGapSkippedRequests := counted.versionGapSkippedRequests + 1,
                                    actualQueries := counted.actualQueries + 1) &&
                  outcome == (if executor.None? then Refused(BadValue) else Independent(VersionGapTooLarge))
                case JoinGroup =>
                  groups == old(groups)[ns := Joined(old(groups)[ns], since)] &&
                  stats == Enqueued(counted).(coalescedRequests := counted.coalescedRequests + 1) &&
                  outcome == Waiting
    {
      if isShutdown {
        outcome := Refused(ShutdownInProgress);
      } else {
        var counted := stats.(totalRequests := stats.totalRequests + 1);
        if ns !in groups {
          NewGroupKeepsTable(config, groups, stats, ns, since);
          groups := groups[ns := Group(since, [since], false, false)];
          stats := Enqueued(counted.(activeGroups := |groups|));
          outcome := Leading(AdaptiveWindow(config, stats.waitingRequests));
        } else {
          var group := groups[ns];
          if |group.waiters| >= config.maxWaitersPerGroup {
            stats := counted.(overflowRequests := counted.overflowRequests + 1,
                              actualQueries := counted.actualQueries + 1);
            IndependentKeepsTable(config, groups, old(stats), stats);
            outcome := if executor.None? then Refused(BadValue) else Independent(Overflow);
          } else if VersionGap(group.minVersion, since) > config.maxVersionGap {
            stats := counted.(versionGapSkippedRequests := counted.versionGapSkippedRequests + 1,
                              actualQueries := counted.actualQueries + 1);
            IndependentKeepsTable(config, groups, old(stats), stats);
            outcome := if executor.None? then Refused(BadValue) else Independent(VersionGapTooLarge);
          } else {
            JoinKeepsTable(config, groups, old(stats), ns, since);
            groups := groups[ns := Joined(group, since)];
            stats := Enqueued(counted).(coalescedRequests := counted.coalescedRequests + 1);
            outcome := Waiting;
          }
        }
      }
    }

    /**
     * `executeAndDistribute(ns)` and the wake-up of the group's waiters:
     * query once from the group's `minVersion`, hand every waiter its answer
     * in waiter order, and retire the group; each woken waiter stops being
     * counted as waiting, and the leader counts its query.
     */
    method Complete(ns: string) returns (answers: seq<QueryResult>)
      requires Valid()
      modifies this
      ensures Valid()
      ensures isShutdown == old(isShutdown) && executor == old(executor)
      ensures ns !in old(groups) ==> answers == [] && groups == old(groups) && stats == old(stats)
      ensures ns in old(groups) ==>
                var g := old(groups)[ns];
                var result := if executor.Some? then executor.value(ns, g.minVersion) else Err(BadValue);
                groups == old(groups) - {ns} &&
                stats.waitingRequests + |g.waiters| == old(stats).waitingRequests &&
                stats == old(stats).(activeGroups := |groups|, waitingRequests := stats.waitingRequests,
                                     actualQueries := old(stats).actualQueries + 1) &&
                |answers| == |g.waiters| &&
                forall i :: 0 <= i < |answers| ==> answers[i] == Answer(result, g.waiters[i])
    {
      if ns !in groups {
        return [];
      }
      var g := groups[ns];
      var result := if executor.Some? then executor.value(ns, g.minVersion) else Err(BadValue);

      answers := Distribute(result, g.waiters);
      DropGroup(groups, ns);
      groups := groups - {ns};
      stats := stats.(activeGroups := |groups|, waitingRequests := stats.waitingRequests - |g.waiters|,
                      actualQueries := stats.actualQueries + 1);
    }

    /**
     * `shutdown`: from now on every request is refused; every waiter of
     * every group (returned here) is told ShutdownInProgress and the group
     * table is emptied.  The waiters then wake: none is waiting any more,
     * and each group's leader counts a query.  A second call finds no groups.
     */
    method Shutdown() returns (cancelled: map<string, Group>)
      requires Valid()
      modifies this
      ensures Valid()
      ensures isShutdown && groups == map[]
      ensures cancelled == old(groups)
      ensures stats == old(stats).(waitingRequests := 0, actualQueries := old(stats).actualQueries + |old(groups)|)
      ensures executor == old(executor)
    {
      isShutdown := true;
      cancelled := groups;
      stats := stats.(waitingRequests := 0, actualQueries := stats.actualQueries + |groups|);
      groups := map[];
    }
  }

  function Max(a: int, b: int): int
  {
    if a >= b then a else b
  }
}
