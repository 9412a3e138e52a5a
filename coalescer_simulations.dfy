/**
 * The two coalescer simulations of the catalog tests: a config server that
 * holds chunks of one collection with versions assigned by position, and a
 * coalescer that sorts concurrent `getChunks` requests of a namespace into
 * groups whose major versions lie within `maxVersionGap` of each other.  The
 * first request of a group leads: after the coalescing window it queries the
 * server once, from the group's lowest version, and hands every waiter of
 * the group the chunks at or above that waiter's own major version.
 *
 * The large-scale simulation (`MultiGroupCoalescer`) also skips groups whose
 * query has completed or that already hold `maxWaitersPerGroup` waiters and
 * counts the groups it creates and the chunks it hands out; the CPU-scaling
 * one (`Coalescer`) only skips groups whose query has started.  Both are the
 * one class `SimCoalescer` below, told apart by its `Rule`.
 *
 * The threads, the mutex and condition variable, the sleeps and the timing
 * are not modelled: each step below is one critical section of `getChunks`.
 */
module CoalescerSimulations {
  import opened Wrappers
  import opened Bytes
  import ChunkVersion

  type u32 = ChunkVersion.u32

  /** The simulations' own `ChunkVersionLight`: a major and a minor version, no epoch. */
  datatype SimVersion = SimVersion(major: u32, minor: u32)

  datatype ChunkData = ChunkData(ns: string, version: u32)

  /** The namespace every simulated chunk belongs to. */
  const SIM_NS: string := "test.coll"

  // ---------------------------------------------------------------------
  // The simulated config server
  // ---------------------------------------------------------------------

  /** `totalChunks / latestVersion`, raised to 1 when it is 0. */
  function ChunksPerVersion(totalChunks: u32, latestVersion: u32): (c: nat)
    requires latestVersion > 0
  {
    if totalChunks / latestVersion == 0 then 1 else totalChunks / latestVersion
  }

  /**
   * The version of chunk `i`: `min(i / chunksPerVersion + 1, latestVersion)`.
   * For `i < totalChunks` the sum cannot wrap around in 32 bits.
   */
  function AssignedVersion(i: nat, totalChunks: u32, latestVersion: u32): u32
    requires latestVersion > 0
  {
    var v := i / ChunksPerVersion(totalChunks, latestVersion) + 1;
    if v < latestVersion then v else latestVersion
  }

  /** The chunks the server holds, in storage order. */
  function Assigned(totalChunks: u32, latestVersion: u32): (chunks: seq<ChunkData>)
    requires latestVersion > 0
  {
    seq(totalChunks, i requires 0 <= i < totalChunks =>
      ChunkData(SIM_NS, AssignedVersion(i, totalChunks, latestVersion)))
  }

  /** The constructor's loop that generates the chunks. */
  method BuildChunks(totalChunks: u32, latestVersion: u32) returns (chunks: seq<ChunkData>)
    requires latestVersion > 0
    ensures chunks == Assigned(totalChunks, latestVersion)
  {
    var chunksPerVersion := totalChunks / latestVersion;
    if chunksPerVersion == 0 {
      chunksPerVersion := 1;
    }
    chunks := [];
    var i := 0;
    while i < totalChunks
      invariant 0 <= i <= totalChunks
      invariant |chunks| == i
      invariant forall k :: 0 <= k < i ==> chunks[k] == Assigned(totalChunks, latestVersion)[k]
    {
      var v := i / chunksPerVersion + 1;
      var ver := if v < latestVersion then v else latestVersion;
      chunks := chunks + [ChunkData(SIM_NS, ver)];
      i := i + 1;
    }
  }

  lemma DivMonotone(i: nat, j: nat, c: nat)
    requires i <= j && c > 0
    ensures i / c <= j / c
  {
    DivModUnique(j, c, j / c, j % c);
    DivModUnique(i, c, i / c, i % c);
    if i / c > j / c {
      MulAtLeast(c, i / c - j / c);
    }
  }

  /** Every chunk's version lies between 1 and `latestVersion`, and versions never decrease along the storage order. */
  lemma AssignedVersionsOrdered(totalChunks: u32, latestVersion: u32)
    requires latestVersion > 0
    ensures forall i :: 0 <= i < totalChunks ==>
              1 <= Assigned(totalChunks, latestVersion)[i].version <= latestVersion
    ensures forall i, j :: 0 <= i <= j < totalChunks ==>
              Assigned(totalChunks, latestVersion)[i].version <= Assigned(totalChunks, latestVersion)[j].version
  {
    var chunks := Assigned(totalChunks, latestVersion);
    var c := ChunksPerVersion(totalChunks, latestVersion);
    forall i, j | 0 <= i <= j < totalChunks
      ensures chunks[i].version <= chunks[j].version
    {
      DivMonotone(i, j, c);
    }
  }

  /**
   * With at least as many chunks as versions, every version from 1 to
   * `latestVersion` is held by some chunk: the server covers the range it
   * announces.
   */
  lemma AssignedCoversVersions(totalChunks: u32, latestVersion: u32)
    requires 0 < latestVersion <= totalChunks
    ensures forall v: u32 :: 1 <= v <= latestVersion ==> ChunkData(SIM_NS, v) in Assigned(totalChunks, latestVersion)
  {
    var chunks := Assigned(totalChunks, latestVersion);
    var c := totalChunks / latestVersion;
    DivModUnique(totalChunks, latestVersion, c, totalChunks % latestVersion);
    assert totalChunks == latestVersion * c + totalChunks % latestVersion;
    DivModUnique(latestVersion, latestVersion, 1, 0);
    DivMonotone(latestVersion, totalChunks, latestVersion);
    assert ChunksPerVersion(totalChunks, latestVersion) == c;
    forall v: u32 | 1 <= v <= latestVersion
      ensures ChunkData(SIM_NS, v) in chunks
    {
      var i := (v - 1) * c;
      MulMonotone(v - 1, latestVersion - 1, c);
      assert (latestVersion - 1) * c + c == latestVersion * c;
      DivModUnique(i, c, v - 1, 0);
      assert chunks[i].version == v;
    }
  }

  lemma MulMonotone(a: nat, b: nat, c: nat)
    requires a <= b
    ensures a * c <= b * c
  {
    assert b * c == a * c + (b - a) * c;
  }

  /** With fewer chunks than versions, chunk `i` simply gets version `i + 1`. */
  lemma AssignedFewChunks(totalChunks: u32, latestVersion: u32)
    requires totalChunks < latestVersion
    ensures forall i :: 0 <= i < totalChunks ==> Assigned(totalChunks, latestVersion)[i].version == i + 1
  {
    assert ChunksPerVersion(totalChunks, latestVersion) == 1;
  }

  /** The chunks with `version >= major`, in the order they are stored. */
  function Since(chunks: seq<ChunkData>, major: u32): (r: seq<ChunkData>)
    ensures |r| <= |chunks|
    ensures forall c :: c in r <==> c in chunks && c.version >= major
  {
    if chunks == [] then []
    else
      var last := chunks[|chunks| - 1];
      assert chunks == chunks[..|chunks| - 1] + [last];
      Since(chunks[..|chunks| - 1], major) + (if last.version >= major then [last] else [])
  }

  lemma SinceSnoc(chunks: seq<ChunkData>, c: ChunkData, major: u32)
    ensures Since(chunks + [c], major) == Since(chunks, major) + (if c.version >= major then [c] else [])
  {
    assert (chunks + [c])[..|chunks|] == chunks;
  }

  /** `getChunksSince`'s loop (the namespace argument is not looked at). */
  method FilterSince(chunks: seq<ChunkData>, major: u32) returns (result: seq<ChunkData>)
    ensures result == Since(chunks, major)
  {
    result := [];
    var i := 0;
    while i < |chunks|
      invariant 0 <= i <= |chunks|
      invariant result == Since(chunks[..i], major)
    {
      SinceSnoc(chunks[..i], chunks[i], major);
      assert chunks[..i + 1] == chunks[..i] + [chunks[i]];
      if chunks[i].version >= major {
        result := result + [chunks[i]];
      }
      i := i + 1;
    }
    assert chunks[..|chunks|] == chunks;
  }

  /**
   * Filtering from a lower version first and then from a higher one gives
   * what filtering from the higher one alone gives: a waiter served from
   * its group's lowest version gets exactly the answer of its own query.
   */
  lemma {:induction false} SinceTwice(chunks: seq<ChunkData>, low: u32, high: u32)
    requires low <= high
    ensures Since(Since(chunks, low), high) == Since(chunks, high)
    decreases |chunks|
  {
    if chunks != [] {
      var prefix := chunks[..|chunks| - 1];
      var last := chunks[|chunks| - 1];
      assert chunks == prefix + [last];
      SinceTwice(prefix, low, high);
      SinceSnoc(prefix, last, low);
      SinceSnoc(prefix, last, high);
      if last.version >= low {
        assert Since(chunks, low) == Since(prefix, low) + [last];
        SinceSnoc(Since(prefix, low), last, high);
      } else {
        assert Since(chunks, low) == Since(prefix, low) + [];
        assert Since(chunks, low) == Since(prefix, low);
        assert Since(chunks, high) == Since(prefix, high) + [];
      }
    }
  }

  /** The simulated config server (the same in both simulations; the CPU-scaling one also sleeps a configurable delay). */
  class ConfigServer {
    var chunks: seq<ChunkData>
    var queryCount: nat

    constructor(totalChunks: u32, latestVersion: u32)
      requires latestVersion > 0
      ensures chunks == Assigned(totalChunks, latestVersion) && queryCount == 0
    {
      var generated := BuildChunks(totalChunks, latestVersion);
      chunks := generated;
      queryCount := 0;
    }

    /** Counts the query and returns the stored chunks at or above the requested major version. */
    method GetChunksSince(ns: string, since: SimVersion) returns (result: seq<ChunkData>)
      modifies this
      ensures result == Since(chunks, since.major)
      ensures chunks == old(chunks) && queryCount == old(queryCount) + 1
    {
      queryCount := queryCount + 1;
      result := FilterSince(chunks, since.major);
    }
  }

  // ---------------------------------------------------------------------
  // Grouping requests
  // ---------------------------------------------------------------------

  /**
   * The grouping rule of each simulation: the large-scale coalescer's
   * `Config` (`maxWaitersPerGroup`, `maxVersionGap`) or the CPU-scaling
   * coalescer's single `maxVersionGap`.
   */
  datatype Rule =
    | LargeScale(maxWaitersPerGroup: nat, maxVersionGap: u32)
    | CpuScaling(maxVersionGap: u32)

  /** The large-scale `Config()` defaults: 2000 waiters per group, a gap of 500. */
  const LARGE_SCALE_DEFAULT: Rule := LargeScale(2000, 500)

  datatype Group = Group(groupId: nat, minVersion: SimVersion, maxVersion: SimVersion,
                         waiters: seq<SimVersion>, queryInProgress: bool, queryCompleted: bool)

  function Min(a: u32, b: u32): u32 { if b < a then b else a }
  function Max(a: u32, b: u32): u32 { if a < b then b else a }

  /** `newMax - newMin` as a 32-bit unsigned subtraction. */
  function NewSpan(g: Group, v: SimVersion): u32
  {
    (Max(g.maxVersion.major, v.major) - Min(g.minVersion.major, v.major)) % TWO_32
  }

  /** Whether `findOrCreateGroup` puts a request of version `v` into group `g`. */
  predicate Joinable(rule: Rule, g: Group, v: SimVersion)
  {
    match rule
    case LargeScale(cap, gap) =>
      !g.queryInProgress && !g.queryCompleted && |g.waiters| < cap && NewSpan(g, v) <= gap
    case CpuScaling(gap) =>
      !g.queryInProgress && NewSpan(g, v) <= gap
  }

  /** The group once `v` is inside its range: the bound `v` moves replaced by `v` itself. */
  function Widened(g: Group, v: SimVersion): Group
  {
    g.(minVersion := if v.major < g.minVersion.major then v else g.minVersion,
       maxVersion := if v.major > g.maxVersion.major then v else g.maxVersion)
  }

  /** The first group of the namespace that a request of version `v` may join. */
  function FirstJoinable(rule: Rule, gs: seq<Group>, v: SimVersion): (r: Option<nat>)
    ensures r.Some? ==> r.value < |gs| && Joinable(rule, gs[r.value], v) &&
                        forall k :: 0 <= k < r.value ==> !Joinable(rule, gs[k], v)
    ensures r.None? ==> forall k :: 0 <= k < |gs| ==> !Joinable(rule, gs[k], v)
  {
    if gs == [] then None
    else if Joinable(rule, gs[0], v) then Some(0)
    else match FirstJoinable(rule, gs[1..], v)
      case None => None
      case Some(j) => Some(j + 1)
  }

  /**
   * `findOrCreateGroup`: widen the first joinable group of the namespace, or
   * append a new one with the next id and min = max = the request.
   */
  method FindOrCreateGroup(rule: Rule, groupVec: seq<Group>, version: SimVersion, nextGroupId: nat)
    returns (vec: seq<Group>, idx: nat, newNextId: nat)
    ensures idx < |vec|
    ensures FirstJoinable(rule, groupVec, version).Some? ==>
              var j := FirstJoinable(rule, groupVec, version).value;
              idx == j && vec == groupVec[j := Widened(groupVec[j], version)] && newNextId == nextGroupId
    ensures FirstJoinable(rule, groupVec, version).None? ==>
              idx == |groupVec| && newNextId == nextGroupId + 1 &&
              vec == groupVec + [Group(newNextId, version, version, [], false, false)]
  {
    var i := 0;
    while i < |groupVec|
      invariant 0 <= i <= |groupVec|
      invariant forall k :: 0 <= k < i ==> !Joinable(rule, groupVec[k], version)
    {
      var g := groupVec[i];
      var skip := g.queryInProgress ||
                  (rule.LargeScale? && (g.queryCompleted || |g.waiters| >= rule.maxWaitersPerGroup));
      if !skip {
        var newMin := Min(g.minVersion.major, version.major);
        var newMax := Max(g.maxVersion.major, version.major);
        var newSpan := (newMax - newMin) % TWO_32;
        if newSpan <= rule.maxVersionGap {
          var widened := g;
          if version.major < g.minVersion.major {
            widened := widened.(minVersion := version);
          }
          if version.major > g.maxVersion.major {
            widened := widened.(maxVersion := version);
          }
          assert Joinable(rule, g, version);
          return groupVec[i := widened], i, nextGroupId;
        }
      }
      i := i + 1;
    }
    newNextId := nextGroupId + 1;
    vec := groupVec + [Group(newNextId, version, version, [], false, false)];
    idx := |groupVec|;
  }

  /** The namespace's groups after `findOrCreateGroup` and the push of the new waiter. */
  function Placed(rule: Rule, gs: seq<Group>, v: SimVersion, nextGroupId: nat): seq<Group>
  {
    match FirstJoinable(rule, gs, v)
    case Some(j) => gs[j := Widened(gs[j], v).(waiters := gs[j].waiters + [v])]
    case None => gs + [Group(nextGroupId + 1, v, v, [v], false, false)]
  }

  /**
   * `findOrCreateGroup` followed by the push of the request as a waiter:
   * the request leads (`first`) exactly when it created its group, since
   * any group it can join already has a waiter.
   */
  method Place(rule: Rule, gs: seq<Group>, version: SimVersion, nextGroupId: nat)
    returns (vec: seq<Group>, newNextId: nat, first: bool, groupId: nat)
    requires gs == [] || VectorValid(rule, gs, nextGroupId)
    ensures vec == Placed(rule, gs, version, nextGroupId)
    ensures FirstJoinable(rule, gs, version).Some? ==>
              !first && groupId == gs[FirstJoinable(rule, gs, version).value].groupId &&
              newNextId == nextGroupId
    ensures FirstJoinable(rule, gs, version).None? ==>
              first && groupId == nextGroupId + 1 && newNextId == nextGroupId + 1
  {
    var found, idx;
    found, idx, newNextId := FindOrCreateGroup(rule, gs, version, nextGroupId);
    var group := found[idx];
    first := group.waiters == [];
    groupId := group.groupId;
    vec := found[idx := group.(waiters := group.waiters + [version])];
    if FirstJoinable(rule, gs, version).Some? {
      assert GroupValid(rule, gs[idx]);
      assert vec == gs[idx := Widened(gs[idx], version).(waiters := gs[idx].waiters + [version])];
    } else {
      assert group == Group(newNextId, version, version, [], false, false);
      assert idx == |gs| && |vec| == |gs| + 1;
      assert group.waiters + [version] == [version];
      assert forall k :: 0 <= k < |gs| ==> vec[k] == found[k] == gs[k];
      assert vec == gs + [Group(nextGroupId + 1, version, version, [version], false, false)];
    }
  }

  /**
   * A group in the table: its id is positive, it has waiters, its min and
   * max are versions of its waiters and bound all of them, its span is
   * within the gap, it never holds more waiters than the cap allows (a new
   * group always takes its first), and its query has not completed.
   */
  ghost predicate GroupValid(rule: Rule, g: Group)
  {
    g.groupId >= 1 && g.waiters != [] && !g.queryCompleted &&
    g.minVersion in g.waiters && g.maxVersion in g.waiters &&
    (forall k :: 0 <= k < |g.waiters| ==> g.minVersion.major <= g.waiters[k].major <= g.maxVersion.major) &&
    g.maxVersion.major - g.minVersion.major <= rule.maxVersionGap &&
    (rule.LargeScale? ==> |g.waiters| == 1 || |g.waiters| <= rule.maxWaitersPerGroup)
  }

  /** A namespace's groups: at least one, each valid, ids increasing along the vector and handed out already. */
  ghost predicate VectorValid(rule: Rule, gs: seq<Group>, nextGroupId: nat)
  {
    gs != [] &&
    (forall i :: 0 <= i < |gs| ==> GroupValid(rule, gs[i]) && gs[i].groupId <= nextGroupId) &&
    (forall i, j :: 0 <= i < j < |gs| ==> gs[i].groupId < gs[j].groupId)
  }

  ghost predicate TableValid(rule: Rule, t: map<string, seq<Group>>, nextGroupId: nat)
  {
    forall ns :: ns in t ==> VectorValid(rule, t[ns], nextGroupId)
  }

  /** The groups of a namespace; `_groups[ns]` makes an empty vector for a new one. */
  function VectorOf(t: map<string, seq<Group>>, ns: string): seq<Group>
  {
    if ns in t then t[ns] else []
  }

  /** In a valid group the 32-bit span never wraps: it is the widened range's true width. */
  lemma SpanExact(rule: Rule, g: Group, v: SimVersion)
    requires GroupValid(rule, g)
    ensures NewSpan(g, v) == Max(g.maxVersion.major, v.major) - Min(g.minVersion.major, v.major)
    ensures NewSpan(g, v) == Widened(g, v).maxVersion.major - Widened(g, v).minVersion.major
  {
    var k :| 0 <= k < |g.waiters| && g.waiters[k] == g.minVersion;
    assert g.minVersion.major <= g.maxVersion.major;
  }

  /** A joining request keeps its group valid. */
  lemma JoinKeepsGroup(rule: Rule, g: Group, v: SimVersion)
    requires GroupValid(rule, g) && Joinable(rule, g, v)
    ensures GroupValid(rule, Widened(g, v).(waiters := g.waiters + [v]))
  {
    SpanExact(rule, g, v);
    var g' := Widened(g, v).(waiters := g.waiters + [v]);
    assert g'.waiters[|g.waiters|] == v;
    forall k | 0 <= k < |g'.waiters|
      ensures g'.minVersion.major <= g'.waiters[k].major <= g'.maxVersion.major
    {
      if k < |g.waiters| {
        assert g'.waiters[k] == g.waiters[k];
      }
    }
  }

  lemma VectorValidLater(rule: Rule, gs: seq<Group>, n: nat, m: nat)
    requires VectorValid(rule, gs, n) && n <= m
    ensures VectorValid(rule, gs, m)
  {
  }

  /** Placing a request keeps the namespace's groups valid, with the next id counted when a group is created. */
  lemma PlacedKeepsVector(rule: Rule, gs: seq<Group>, v: SimVersion, n: nat)
    requires gs == [] || VectorValid(rule, gs, n)
    requires forall i :: 0 <= i < |gs| ==> gs[i].groupId <= n
    ensures VectorValid(rule, Placed(rule, gs, v, n), if FirstJoinable(rule, gs, v).Some? then n else n + 1)
  {
    match FirstJoinable(rule, gs, v)
    case Some(j) =>
      JoinKeepsGroup(rule, gs[j], v);
    case None =>
      var g := Group(n + 1, v, v, [v], false, false);
      assert g.waiters[0] == v;
      assert GroupValid(rule, g);
      var gs' := gs + [g];
      forall i | 0 <= i < |gs'|
        ensures GroupValid(rule, gs'[i]) && gs'[i].groupId <= n + 1
      {
        if i < |gs| {
          assert gs'[i] == gs[i];
        }
      }
  }

  /** A request placed into namespace `ns` keeps the whole table valid. */
  lemma PlacedKeepsTable(rule: Rule, t: map<string, seq<Group>>, ns: string, v: SimVersion, n: nat)
    requires TableValid(rule, t, n)
    ensures TableValid(rule, t[ns := Placed(rule, VectorOf(t, ns), v, n)],
                       if FirstJoinable(rule, VectorOf(t, ns), v).Some? then n else n + 1)
  {
    var n' := if FirstJoinable(rule, VectorOf(t, ns), v).Some? then n else n + 1;
    PlacedKeepsVector(rule, VectorOf(t, ns), v, n);
    forall other | other in t && other != ns
      ensures VectorValid(rule, t[other], n')
    {
      VectorValidLater(rule, t[other], n, n');
    }
  }

  /** A group whose query has started accepts no more requests: placing a request leaves it as it is. */
  lemma StartedGroupFrozen(rule: Rule, gs: seq<Group>, v: SimVersion, n: nat, j: nat)
    requires j < |gs| && gs[j].queryInProgress
    ensures j < |Placed(rule, gs, v, n)| && Placed(rule, gs, v, n)[j] == gs[j]
  {
  }

  /**
   * The two rules agree on a group that is below the cap and not completed;
   * otherwise the large-scale rule is the stricter one.
   */
  lemma RulesCompared(cap: nat, gap: u32, g: Group, v: SimVersion)
    ensures Joinable(LargeScale(cap, gap), g, v) ==> Joinable(CpuScaling(gap), g, v)
    ensures !g.queryCompleted && |g.waiters| < cap ==>
              (Joinable(LargeScale(cap, gap), g, v) <==> Joinable(CpuScaling(gap), g, v))
  {
  }

  // ---------------------------------------------------------------------
  // Finding a group again and serving its waiters
  // ---------------------------------------------------------------------

  /** The first group with id `id` (and, when `idleOnly`, whose query has not started). */
  function Locate(gs: seq<Group>, id: nat, idleOnly: bool): (r: Option<nat>)
    ensures r.Some? ==> r.value < |gs| && gs[r.value].groupId == id &&
                        (idleOnly ==> !gs[r.value].queryInProgress) &&
                        forall k :: 0 <= k < r.value ==> !(gs[k].groupId == id && (idleOnly ==> !gs[k].queryInProgress))
    ensures r.None? ==> forall k :: 0 <= k < |gs| ==>
                          !(gs[k].groupId == id && (idleOnly ==> !gs[k].queryInProgress))
  {
    if gs == [] then None
    else if gs[0].groupId == id && (idleOnly ==> !gs[0].queryInProgress) then Some(0)
    else match Locate(gs[1..], id, idleOnly)
      case None => None
      case Some(j) => Some(j + 1)
  }

  /** In a namespace's valid groups, the group with a given id is the only one with it. */
  lemma LocateUnique(rule: Rule, gs: seq<Group>, n: nat, id: nat, idleOnly: bool, k: nat)
    requires VectorValid(rule, gs, n)
    requires k < |gs| && gs[k].groupId == id
    ensures Locate(gs, id, idleOnly) == (if idleOnly && gs[k].queryInProgress then None else Some(k))
  {
    forall i | 0 <= i < |gs| && i != k
      ensures gs[i].groupId != id
    {
      if i < k {
        assert gs[i].groupId < gs[k].groupId;
      } else {
        assert gs[k].groupId < gs[i].groupId;
      }
    }
  }

  /** The loops of `getChunks` that look a group up by its id. */
  method LocateGroup(gs: seq<Group>, id: nat, idleOnly: bool) returns (r: Option<nat>)
    ensures r == Locate(gs, id, idleOnly)
  {
    var i := 0;
    while i < |gs|
      invariant 0 <= i <= |gs|
      invariant forall k :: 0 <= k < i ==> !(gs[k].groupId == id && (idleOnly ==> !gs[k].queryInProgress))
    {
      if gs[i].groupId == id && (idleOnly ==> !gs[i].queryInProgress) {
        return Some(i);
      }
      i := i + 1;
    }
    return None;
  }

  /** The sum of the sizes of the waiters' results. */
  function TotalSize(results: seq<seq<ChunkData>>): nat
  {
    if results == [] then 0 else TotalSize(results[..|results| - 1]) + |results[|results| - 1]|
  }

  /**
   * The leader's distribution loop: each waiter receives exactly the query
   * result's chunks at or above its own requested major version, in the
   * result's order; `transferred` is the number of chunks handed out.
   */
  method DeliverToWaiters(queryResult: seq<ChunkData>, waiters: seq<SimVersion>)
    returns (delivered: seq<seq<ChunkData>>, transferred: nat)
    ensures |delivered| == |waiters|
    ensures forall k :: 0 <= k < |waiters| ==> delivered[k] == Since(queryResult, waiters[k].major)
    ensures transferred == TotalSize(delivered)
  {
    delivered, transferred := [], 0;
    var wi := 0;
    while wi < |waiters|
      invariant 0 <= wi <= |waiters| && |delivered| == wi
      invariant forall k :: 0 <= k < wi ==> delivered[k] == Since(queryResult, waiters[k].major)
      invariant transferred == TotalSize(delivered)
    {
      var result := FilterSince(queryResult, waiters[wi].major);
      assert (delivered + [result])[..wi] == delivered;
      delivered := delivered + [result];
      transferred := transferred + |result|;
      wi := wi + 1;
    }
  }

  /**
   * Why one query serves the whole group: the leader queries from the
   * group's minimum version, below every waiter's, so after the per-waiter
   * filter each waiter holds exactly what its own query would have returned.
   */
  lemma GroupQueryServesEveryWaiter(rule: Rule, g: Group, chunks: seq<ChunkData>)
    requires GroupValid(rule, g)
    ensures forall k :: 0 <= k < |g.waiters| ==>
              Since(Since(chunks, g.minVersion.major), g.waiters[k].major) == Since(chunks, g.waiters[k].major)
  {
    forall k | 0 <= k < |g.waiters|
      ensures Since(Since(chunks, g.minVersion.major), g.waiters[k].major) == Since(chunks, g.waiters[k].major)
    {
      SinceTwice(chunks, g.minVersion.major, g.waiters[k].major);
    }
  }

  /** The table once group `i` of namespace `ns` is erased, and the namespace with it when it was the last. */
  function Erased(t: map<string, seq<Group>>, ns: string, i: nat): map<string, seq<Group>>
    requires ns in t && i < |t[ns]|
  {
    var rest := t[ns][..i] + t[ns][i + 1..];
    if rest == [] then t - {ns} else t[ns := rest]
  }

  lemma ErasedKeepsTable(rule: Rule, t: map<string, seq<Group>>, n: nat, ns: string, i: nat)
    requires TableValid(rule, t, n) && ns in t && i < |t[ns]|
    ensures TableValid(rule, Erased(t, ns, i), n)
  {
    var gs := t[ns];
    var rest := gs[..i] + gs[i + 1..];
    forall a, b | 0 <= a < b < |rest|
      ensures rest[a].groupId < rest[b].groupId
    {
      var a' := if a < i then a else a + 1;
      var b' := if b < i then b else b + 1;
      assert rest[a] == gs[a'] && rest[b] == gs[b'];
    }
    forall a | 0 <= a < |rest|
      ensures GroupValid(rule, rest[a]) && rest[a].groupId <= n
    {
      assert rest[a] == gs[if a < i then a else a + 1];
    }
  }

  lemma StartKeepsTable(rule: Rule, t: map<string, seq<Group>>, n: nat, ns: string, i: nat)
    requires TableValid(rule, t, n) && ns in t && i < |t[ns]|
    ensures TableValid(rule, t[ns := t[ns][i := t[ns][i].(queryInProgress := true)]], n)
  {
  }

  // ---------------------------------------------------------------------
  // The coalescer
  // ---------------------------------------------------------------------

  datatype Stats = Stats(totalRequests: nat, actualQueries: nat, coalescedRequests: nat,
                         groupsCreated: nat, totalChunksTransferred: nat)

  const ZERO_STATS: Stats := Stats(0, 0, 0, 0, 0)

  /** What a request does once placed: nothing after shutdown, lead its group, or wait in it. */
  datatype Arrival = Refused | Leader(groupId: nat) | Follower(groupId: nat)

  class SimCoalescer {
    const rule: Rule
    var groups: map<string, seq<Group>>
    var stats: Stats
    var nextGroupId: nat
    var isShutdown: bool

    ghost predicate Valid()
      reads this
    {
      TableValid(rule, groups, nextGroupId)
    }

    constructor(rule: Rule)
      ensures Valid()
      ensures this.rule == rule && groups == map[] && stats == ZERO_STATS
      ensures nextGroupId == 0 && !isShutdown
    {
      this.rule := rule;
      groups := map[];
      stats := ZERO_STATS;
      nextGroupId := 0;
      isShutdown := false;
    }

    /**
     * `getChunks` up to the wait: refused after shutdown; otherwise the
     * request is counted and placed by `findOrCreateGroup`, and it leads
     * exactly when it created its group (the created group has no waiters
     * yet; any other group has at least one).
     */
    method Arrive(ns: string, version: SimVersion) returns (arrival: Arrival)
      requires Valid()
      modifies this
      ensures Valid()
      ensures isShutdown == old(isShutdown)
      ensures old(isShutdown) ==>
                arrival == Refused && groups == old(groups) && stats == old(stats) &&
                nextGroupId == old(nextGroupId)
      ensures !old(isShutdown) ==>
                var gs := VectorOf(old(groups), ns);
                var counted := old(stats).(totalRequests := old(stats).totalRequests + 1);
                groups == old(groups)[ns := Placed(rule, gs, version, old(nextGroupId))] &&
                match FirstJoinable(rule, gs, version)
                case Some(j) =>
                  arrival == Follower(gs[j].groupId) && nextGroupId == old(nextGroupId) &&
                  stats == counted.(coalescedRequests := counted.coalescedRequests + 1)
                case None =>
                  arrival == Leader(old(nextGroupId) + 1) && nextGroupId == old(nextGroupId) + 1 &&
                  stats == counted.(groupsCreated := counted.groupsCreated + if rule.LargeScale? then 1 else 0)
    {
      if isShutdown {
        return Refused;
      }
      stats := stats.(totalRequests := stats.totalRequests + 1);
      var gs := VectorOf(groups, ns);
      PlacedKeepsTable(rule, groups, ns, version, nextGroupId);
      var vec, newNextId, isFirst, groupId := Place(rule, gs, version, nextGroupId);
      if newNextId != nextGroupId && rule.LargeScale? {
        stats := stats.(groupsCreated := stats.groupsCreated + 1);
      }
      groups := groups[ns := vec];
      nextGroupId := newNextId;
      if isFirst {
        arrival := Leader(groupId);
      } else {
        stats := stats.(coalescedRequests := stats.coalescedRequests + 1);
        arrival := Follower(groupId);
      }
    }

    /**
     * The leader after the coalescing window: if its group is still there
     * and its query has not started, mark it started and query from the
     * group's minimum version.
     */
    method StartQuery(ns: string, groupId: nat) returns (since: Option<SimVersion>)
      requires Valid()
      modifies this
      ensures Valid()
      ensures stats == old(stats) && nextGroupId == old(nextGroupId) && isShutdown == old(isShutdown)
      ensures var gs := VectorOf(old(groups), ns);
              match Locate(gs, groupId, true)
              case None => since == None && groups == old(groups)
              case Some(i) =>
                since == Some(gs[i].minVersion) &&
                groups == old(groups)[ns := gs[i := gs[i].(queryInProgress := true)]]
    {
      var gs := VectorOf(groups, ns);
      var found := LocateGroup(gs, groupId, true);
      if found.Some? {
        var i := found.value;
        StartKeepsTable(rule, groups, nextGroupId, ns, i);
        groups := groups[ns := gs[i := gs[i].(queryInProgress := true)]];
        since := Some(gs[i].minVersion);
      } else {
        since := None;
      }
    }

    /**
     * The leader with its query's result: the query is counted; if the group
     * is still there, every waiter receives its filtered share (the leader,
     * the first waiter, its own), the large-scale coalescer counts the
     * chunks handed out, and the group is erased, with its namespace when it
     * was the last one.
     */
    method Deliver(ns: string, groupId: nat, queryResult: seq<ChunkData>)
      returns (delivered: seq<seq<ChunkData>>)
      requires Valid()
      modifies this
      ensures Valid()
      ensures nextGroupId == old(nextGroupId) && isShutdown == old(isShutdown)
      ensures var gs := VectorOf(old(groups), ns);
              var counted := old(stats).(actualQueries := old(stats).actualQueries + 1);
              match Locate(gs, groupId, false)
              case None => delivered == [] && groups == old(groups) && stats == counted
              case Some(i) =>
                |delivered| == |gs[i].waiters| &&
                (forall k :: 0 <= k < |delivered| ==>
                   delivered[k] == Since(queryResult, gs[i].waiters[k].major)) &&
                groups == Erased(old(groups), ns, i) &&
                stats == counted.(totalChunksTransferred := counted.totalChunksTransferred +
                                    if rule.LargeScale? then TotalSize(delivered) else 0)
    {
      stats := stats.(actualQueries := stats.actualQueries + 1);
      var gs := VectorOf(groups, ns);
      var found := LocateGroup(gs, groupId, false);
      if found.Some? {
        var i := found.value;
        var transferred;
        delivered, transferred := DeliverToWaiters(queryResult, gs[i].waiters);
        if rule.LargeScale? {
          stats := stats.(totalChunksTransferred := stats.totalChunksTransferred + transferred);
        }
        ErasedKeepsTable(rule, groups, nextGroupId, ns, i);
        groups := Erased(groups, ns, i);
      } else {
        delivered := [];
      }
    }

    /** `shutdown`: later requests are refused and every group is dropped. */
    method Shutdown()
      requires Valid()
      modifies this
      ensures Valid()
      ensures isShutdown && groups == map[]
      ensures stats == old(stats) && nextGroupId == old(nextGroupId)
    {
      isShutdown := true;
      groups := map[];
    }
  }
}
