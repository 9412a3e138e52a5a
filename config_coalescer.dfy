/**
 * The config-server-side `ConfigQueryCoalescer::tryCoalesce`: the first
 * request for a namespace becomes the leader and runs its query at once;
 * later requests either run their own query (version spread too wide, or the
 * group is full) or wait for the leader's result, which they receive as it
 * is.  Versions are plain unsigned 64-bit numbers here.  The waiting, the
 * per-waiter timeout and the promotion of a timed-out follower are not
 * modelled.
 */
module ConfigCoalescer {
  import opened Wrappers
  import opened BsonTree
  import opened ErrorCodes

  /** The instance configuration `tryCoalesce` reads (the .cpp also uses `maxVersionGap`). */
  datatype Config = Config(maxWaitTime: int, maxTotalWaitTime: int, maxWaitersPerGroup: nat, maxVersionGap: u64)

  datatype Stats = Stats(totalRequests: nat, actualQueries: nat, coalescedRequests: nat,
                         timeoutRequests: nat, overflowRequests: nat, versionGapSkippedRequests: nat,
                         activeGroups: nat)

  const ZERO_STATS: Stats := Stats(0, 0, 0, 0, 0, 0, 0)

  /** A `CoalescingGroup`: its generation, its version range and the versions of its waiters. */
  datatype Group = Group(generation: nat, minVersion: u64, maxVersion: u64,
                         queryInProgress: bool, queryCompleted: bool, waiters: seq<u64>)

  type QueryResult = Result<seq<Doc>, ErrorCode>

  function Min(a: int, b: int): int { if a <= b then a else b }
  function Max(a: int, b: int): int { if a >= b then a else b }

  /** The spread of the group's versions once `v` is counted in. */
  function Span(g: Group, v: u64): (s: int)
  {
    Max(g.maxVersion, v) - Min(g.minVersion, v)
  }

  datatype Decision = VersionGapTooLarge | Overflow | JoinGroup

  /** What `tryCoalesce` does with a request for a namespace that already has a group. */
  function Decide(c: Config, g: Group, v: u64): Decision
  {
    if Span(g, v) > c.maxVersionGap then VersionGapTooLarge
    else if |g.waiters| >= c.maxWaitersPerGroup then Overflow
    else JoinGroup
  }

  /**
   * The version check comes first: a request that would stretch the group
   * too far runs on its own even when the group is full.  A request joins
   * exactly when the spread stays within the gap and the group has room.
   */
  lemma DecideOrder(c: Config, g: Group, v: u64)
    ensures Span(g, v) > c.maxVersionGap ==> Decide(c, g, v) == VersionGapTooLarge
    ensures Decide(c, g, v) == Overflow ==> Span(g, v) <= c.maxVersionGap && |g.waiters| >= c.maxWaitersPerGroup
    ensures Decide(c, g, v) == JoinGroup <==> Span(g, v) <= c.maxVersionGap && |g.waiters| < c.maxWaitersPerGroup
  {
  }

  /**
   * Joining leaves min and max untouched, so they stay at the leader's
   * version: every follower that joins is within the gap of the version
   * the leader queries.
   */
  lemma JoinNearLeader(c: Config, g: Group, v: u64)
    requires g.minVersion == g.maxVersion
    requires Decide(c, g, v) == JoinGroup
    ensures -(c.maxVersionGap as int) <= v - g.minVersion <= c.maxVersionGap
  {
  }

  /**
   * What a config-server query from version `v` returns, reduced to the
   * versions of the stored chunks it hands back: those at or above `v`, in
   * storage order.
   */
  function ChunksSince(stored: seq<u64>, v: u64): (r: seq<u64>)
    ensures |r| <= |stored|
    ensures forall x :: x in r <==> x in stored && x >= v
  {
    if |stored| == 0 then []
    else (if stored[0] >= v then [stored[0]] else []) + ChunksSince(stored[1..], v)
  }

  /**
   * Joining never lowers the group's minVersion, and every waiter receives the
   * leader's result, fetched from the leader's version.  A follower below the
   * leader, within the gap, therefore never receives a stored chunk whose
   * version lies between its own version and the leader's, although its own
   * query returns it.
   */
  lemma FollowerBelowLeaderMissesChunks(c: Config, g: Group, v: u64, stored: seq<u64>, x: u64)
    requires WellFormedGroup(c, g) && Decide(c, g, v) == JoinGroup
    requires x in stored && v <= x < g.minVersion
    ensures x in ChunksSince(stored, v)
    ensures x !in ChunksSince(stored, g.waiters[0])
  {
  }

  /**
   * Such a follower exists: with a gap of 500, a follower at 5 joins the
   * group of a leader at 10, and a chunk stored at version 5 reaches its own
   * query but not the leader's result.
   */
  lemma FollowerBelowLeaderExample()
    ensures var c := Config(0, 0, 10, 500);
            var g := Group(1, 10, 10, true, false, [10]);
            WellFormedGroup(c, g) && Decide(c, g, 5) == JoinGroup &&
            ChunksSince([5, 10], 5) == [5, 10] && ChunksSince([5, 10], 10) == [10]
  {
    var c := Config(0, 0, 10, 500);
    var g := Group(1, 10, 10, true, false, [10]);
    assert Span(g, 10) == 0;
    assert ChunksSince([5, 10], 10) == [] + ChunksSince([10], 10);
    assert ChunksSince([5, 10], 5) == [5] + ChunksSince([10], 5);
  }

  /** A group's versions: min = max = the leader's, and every waiter within the gap of it. */
  predicate WellFormedGroup(c: Config, g: Group)
  {
    g.minVersion == g.maxVersion && |g.waiters| >= 1 && g.waiters[0] == g.minVersion &&
    (forall i :: 0 <= i < |g.waiters| ==> Span(g, g.waiters[i]) <= c.maxVersionGap) &&
    g.queryInProgress && !g.queryCompleted
  }

  /** A joining follower keeps its group well formed. */
  lemma JoinKeepsGroup(c: Config, g: Group, v: u64)
    requires WellFormedGroup(c, g)
    requires Decide(c, g, v) == JoinGroup
    ensures WellFormedGroup(c, g.(waiters := g.waiters + [v]))
  {
    var g' := g.(waiters := g.waiters + [v]);
    forall i | 0 <= i < |g'.waiters|
      ensures Span(g', g'.waiters[i]) <= c.maxVersionGap
    {
      if i < |g.waiters| {
        assert g'.waiters[i] == g.waiters[i];
      }
    }
  }

  /**
   * The group table: every group well formed, with a distinct generation
   * between 1 and the last one handed out.
   */
  predicate TableValid(c: Config, t: map<string, Group>, last: nat)
  {
    (forall ns :: ns in t ==> WellFormedGroup(c, t[ns]) && 1 <= t[ns].generation <= last) &&
    (forall a, b :: a in t && b in t && a != b ==> Generation(t, a) != Generation(t, b))
  }

  /** The generation of the group of namespace `ns`. */
  function Generation(t: map<string, Group>, ns: string): nat
    requires ns in t
  {
    t[ns].generation
  }

  /** A new group takes the next generation, which no existing group has. */
  lemma TableAdd(c: Config, t: map<string, Group>, last: nat, ns: string, v: u64)
    requires TableValid(c, t, last) && ns !in t
    ensures forall other :: other in t ==> t[other].generation != last + 1
    ensures TableValid(c, t[ns := Group(last + 1, v, v, true, false, [v])], last + 1)
  {
  }

  lemma TableJoin(c: Config, t: map<string, Group>, last: nat, ns: string, v: u64)
    requires TableValid(c, t, last) && ns in t
    requires Decide(c, t[ns], v) == JoinGroup
    ensures TableValid(c, t[ns := t[ns].(waiters := t[ns].waiters + [v])], last)
  {
    JoinKeepsGroup(c, t[ns], v);
    var t' := t[ns := t[ns].(waiters := t[ns].waiters + [v])];
    assert forall k :: k in t' ==> t'[k].generation == t[k].generation;
  }

  lemma TableRemove(c: Config, t: map<string, Group>, last: nat, ns: string)
    requires TableValid(c, t, last)
    ensures TableValid(c, t - {ns}, last)
  {
  }

  datatype Arrival =
    | Refused(code: ErrorCode)        // ShutdownInProgress
    | Leading(generation: nat)        // created the group and runs the query itself
    | Independent(why: Decision)      // runs its own query, uncoalesced
    | Waiting(generation: nat)        // waits for the leader of that generation

  /** The state `tryCoalesce` leaves behind, and what it tells the caller. */
  datatype Step = Step(groups: map<string, Group>, stats: Stats, nextGeneration: nat, outcome: Arrival)

  /**
   * `tryCoalesce` on a running coalescer: the request is counted; a
   * namespace without a group gets one with the next generation and the
   * request as leader; otherwise the request runs on its own (gap first,
   * then overflow) or joins the group without touching its min and max.
   */
  function Try(c: Config, groups: map<string, Group>, stats: Stats, last: nat, ns: string, v: u64): (r: Step)
    ensures r.stats.totalRequests == stats.totalRequests + 1
    ensures ns !in groups ==>
              r.nextGeneration == last + 1 && r.outcome == Leading(last + 1) &&
              r.groups == groups[ns := Group(last + 1, v, v, true, false, [v])] &&
              r.stats == stats.(totalRequests := stats.totalRequests + 1, activeGroups := |r.groups|)
    ensures ns in groups ==>
              var g := groups[ns];
              var counted := stats.(totalRequests := stats.totalRequests + 1);
              r.nextGeneration == last &&
              match Decide(c, g, v)
              case VersionGapTooLarge =>
                r.groups == groups && r.outcome == Independent(VersionGapTooLarge) &&
                r.stats == counted.(versionGapSkippedRequests := counted.versionGapSkippedRequests + 1,
                                    actualQueries := counted.actualQueries + 1)
              case Overflow =>
                r.groups == groups && r.outcome == Independent(Overflow) &&
                r.stats == counted.(overflowRequests := counted.overflowRequests + 1,
                                    actualQueries := counted.actualQueries + 1)
              case JoinGroup =>
                r.groups == groups[ns := g.(waiters := g.waiters + [v])] &&
                r.outcome == Waiting(g.generation) &&
                r.stats == counted.(coalescedRequests := counted.coalescedRequests + 1)
  {
    var counted := stats.(totalRequests := stats.totalRequests + 1);
    if ns !in groups then
      var t := groups[ns := Group(last + 1, v, v, true, false, [v])];
      Step(t, counted.(activeGroups := |t|), last + 1, Leading(last + 1))
    else
      var g := groups[ns];
      if Span(g, v) > c.maxVersionGap then
        Step(groups, counted.(versionGapSkippedRequests := counted.versionGapSkippedRequests + 1,
                              actualQueries := counted.actualQueries + 1),
             last, Independent(VersionGapTooLarge))
      else if |g.waiters| >= c.maxWaitersPerGroup then
        Step(groups, counted.(overflowRequests := counted.overflowRequests + 1,
                              actualQueries := counted.actualQueries + 1),
             last, Independent(Overflow))
      else
        Step(groups[ns := g.(waiters := g.waiters + [v])],
             counted.(coalescedRequests := counted.coalescedRequests + 1), last, Waiting(g.generation))
  }

  /**
   * `tryCoalesce` keeps the table valid, hands a new group a generation no
   * other group has, and keeps `activeGroups` equal to the number of groups.
   */
  lemma TryKeepsTable(c: Config, groups: map<string, Group>, stats: Stats, last: nat, ns: string, v: u64)
    requires TableValid(c, groups, last) && stats.activeGroups == |groups|
    ensures var r := Try(c, groups, stats, last, ns, v);
            TableValid(c, r.groups, r.nextGeneration) && r.stats.activeGroups == |r.groups|
    ensures ns !in groups ==> forall other :: other in groups ==> groups[other].generation != last + 1
  {
    if ns !in groups {
      TableAdd(c, groups, last, ns, v);
    } else if Decide(c, groups[ns], v) == JoinGroup {
      TableJoin(c, groups, last, ns, v);
    }
  }

  class Coalescer {
    const config: Config
    var groups: map<string, Group>
    var stats: Stats
    var nextGeneration: nat
    var isShutdown: bool

    /**
     * Every group is well formed and carries a distinct generation no later
     * than `nextGeneration`; until shutdown `activeGroups` counts the groups.
     */
    predicate Valid()
      reads this
    {
      TableValid(config, groups, nextGeneration) &&
      (!isShutdown ==> stats.activeGroups == |groups|)
    }

    constructor(config: Config)
      ensures Valid()
      ensures this.config == config && groups == map[] && stats == ZERO_STATS
      ensures nextGeneration == 0 && !isShutdown
    {
      this.config := config;
      groups := map[];
      stats := ZERO_STATS;
      nextGeneration := 0;
      isShutdown := false;
    }

    /**
     * `tryCoalesce` up to the point where the caller queries or waits:
     * refuse after shutdown without counting; otherwise count the request,
     * then create the group (fresh generation, min = max = request), or run
     * independently (gap first, then overflow), or join without touching
     * the group's min and max.
     */
    method Arrive(ns: string, v: u64) returns (outcome: Arrival)
      requires Valid()
      modifies this
      ensures Valid()
      ensures isShutdown == old(isShutdown)
      ensures old(isShutdown) ==>
                outcome == Refused(ShutdownInProgress) && groups == old(groups) &&
                stats == old(stats) && nextGeneration == old(nextGeneration)
      ensures !old(isShutdown) ==>
                Step(groups, stats, nextGeneration, outcome) ==
                Try(config, old(groups), old(stats), old(nextGeneration), ns, v)
      ensures !old(isShutdown) && ns !in old(groups) ==>
                forall other :: other in old(groups) ==> old(groups)[other].generation != nextGeneration
    {
      if isShutdown {
        outcome := Refused(ShutdownInProgress);
      } else {
        TryKeepsTable(config, groups, stats, nextGeneration, ns, v);
        var r := Try(config, groups, stats, nextGeneration, ns, v);
        groups, stats, nextGeneration, outcome := r.groups, r.stats, r.nextGeneration, r.outcome;
      }
    }

    /**
     * The leader's return after its query: after shutdown it gets
     * ShutdownInProgress; if its group (same generation) is still there,
     * every waiter of it, the leader first, receives the unfiltered result
     * and the group is retired; otherwise nothing was delivered to it and it
     * returns an empty list.
     */
    method LeaderFinish(ns: string, generation: nat, result: QueryResult)
      returns (mine: QueryResult, delivered: seq<u64>)
      requires Valid()
      modifies this
      ensures Valid()
      ensures isShutdown == old(isShutdown) && nextGeneration == old(nextGeneration)
      ensures old(isShutdown) ==>
                mine == Err(ShutdownInProgress) && delivered == [] &&
                groups == old(groups) && stats == old(stats)
      ensures !old(isShutdown) && ns in old(groups) && old(groups)[ns].generation == generation ==>
                mine == result && delivered == old(groups)[ns].waiters &&
                groups == old(groups) - {ns} &&
                stats == old(stats).(actualQueries := old(stats).actualQueries + 1, activeGroups := |groups|)
      ensures !old(isShutdown) && !(ns in old(groups) && old(groups)[ns].generation == generation) ==>
                mine == Ok([]) && delivered == [] && groups == old(groups) && stats == old(stats)
    {
      if isShutdown {
        return Err(ShutdownInProgress), [];
      }
      if ns in groups && groups[ns].generation == generation {
        delivered := groups[ns].waiters;
        TableRemove(config, groups, nextGeneration, ns);
        groups := groups - {ns};
        stats := stats.(actualQueries := stats.actualQueries + 1, activeGroups := |groups|);
        mine := result;
      } else {
        mine, delivered := Ok([]), [];
      }
    }

    /**
     * `shutdown`: later requests are refused; every waiter of every group
     * (returned here) is told ShutdownInProgress and the table is emptied.
     * The counters, `activeGroups` included, are left as they were.
     */
    method Shutdown() returns (cancelled: map<string, Group>)
      requires Valid()
      modifies this
      ensures Valid()
      ensures isShutdown && groups == map[] && cancelled == old(groups)
      ensures stats == old(stats) && nextGeneration == old(nextGeneration)
    {
      isShutdown := true;
      cancelled := groups;
      groups := map[];
    }
  }

  /**
   * Every group in the table has its query in progress from the moment it is
   * created, so the promotion of a timed-out follower, which needs a group
   * whose query has not started, never applies.
   */
  lemma NoPromotion(c: Config, g: Group)
    requires WellFormedGroup(c, g)
    ensures !((!g.queryInProgress) && !g.queryCompleted)
  {
  }
}
