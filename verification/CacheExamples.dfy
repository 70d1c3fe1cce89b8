/**
 Runs on which the cache, the view or the counts fall short, for each limit that holds only
 under a condition.
 */
module CacheExamples {
  import opened Drvs
  import opened Reachability
  import opened Graphs
  import opened Services
  import opened Mirror
  import opened ReloadedFailures
  import opened Reinsertions
  import opened InsertWindows
  import opened ReferenceCounts
  import opened Limits
  import opened ExampleRuns

  // ---------------------------------------------------------------- inserting

  /** Inserting the second drv again leaves it with count zero although the first depends on it. */
  lemma ReinsertLosesCount(a: Drv, b: Drv)
    requires a.id != b.id
    ensures !CoveredAt(After(2, PairRun(a, b) + [(InsertDrvsCmd([b], []), 1)]), b.id)
  {
    Next(2, PairRun(a, b), InsertDrvsCmd([b], []), 1);
    InsertAlone(Pair(2, a, b), b, 1);
    PairIsLinked(2, a, b);
    ReinsertCoversIff(Pair(2, a, b), b, 1);
  }

  /** Halfway through the command that inserts the pair the first drv looks buildable, which it is not. */
  lemma PairIsExposedEarly(a: Drv, b: Drv)
    requires a.id != b.id && b.state != SUCCEEDED
    ensures Handles.IsBuildable(Midway(After(2, []), [a, b], [(a.id, b.id)], 0, 0).view, a.id)
    ensures !Handles.IsBuildable(Pair(2, a, b).view, a.id)
  {
    var s, drvs, refs := After(2, []), [a, b], [(a.id, b.id)];
    AtStart(2);
    PairIsNew(s, a, b);
    PairIsStep(2, a, b);
    FirstSurvives(s, a, b);
    UnfinishedWillNot(s, a, b);
    assert refs[0..] == refs && refs[0] in refs;
    WindowMisleadsIff(s, drvs, refs, 0, 0, 0);
  }

  lemma FirstSurvives(s: Service, a: Drv, b: Drv)
    requires s.graph.order == [] && s.graph.capacity == 2
    ensures Survives(s.graph, [a, b], a.id)
  {
    assert s.graph.order + Ids([a, b]) == [a.id, b.id];
  }

  lemma UnfinishedWillNot(s: Service, a: Drv, b: Drv)
    requires s.view == map[] && a.id != b.id && b.state != SUCCEEDED
    ensures !WillSucceed(s, [a, b], b.id)
  {
  }

  /** In a cache for one drv the pair's first drv is evicted, whatever its state. */
  lemma UnfinishedIsEvicted(a: Drv, b: Drv)
    requires a.id != b.id && !Terminal(a.state)
    ensures var s := After(1, [] + [(InsertDrvsCmd([a], []), 0)]);
            a.id in s.graph.nodes && !Terminal(s.graph.nodes[a.id].state)
    ensures a.id !in After(1, [] + [(InsertDrvsCmd([a], []), 0)] + [(InsertDrvsCmd([b], []), 1)]).graph.nodes
  {
    OneIsCached(a);
    var first := [] + [(InsertDrvsCmd([a], []), 0)];
    Next(1, first, InsertDrvsCmd([b], []), 1);
    InsertAlone(After(1, first), b, 1);
    NextEvicts(After(1, first), b, 1, a.id);
  }

  /** A referrer that was evicted is counted although no cached node lists the drv. */
  lemma EvictedReferrerIsCounted(a: Drv, b: Drv)
    requires a.id != b.id
    ensures var s := Pair(1, a, b);
            Invariant(s) && (a.id, b.id) in s.db.refs && Count(s.refCounts, b.id) == 1 && Referrers(s.graph.nodes, b.id) == {}
  {
    PairHasInvariant(1, a, b);
    PairIsStored(1, a, b);
    PairOrder(1, a, b);
    PairIsCounted(1, a, b);
    NoSelfReference(1, a, b);
    OnlyOneCached(Pair(1, a, b), b.id);
  }

  lemma PairIsCounted(capacity: nat, a: Drv, b: Drv)
    requires 0 < capacity
    ensures Count(Pair(capacity, a, b).refCounts, b.id) == 1
  {
    var s, drvs := After(capacity, []), [a, b];
    AtStart(capacity);
    PairIsStep(capacity, a, b);
    NothingIsCounted(s, drvs, 0);
    LinkAlone(InsertEach(s, drvs, 0), a.id, b.id);
    LinkCounts(InsertEach(s, drvs, 0), a.id, b.id);
  }

  lemma LinkCounts(s: Service, a: DrvId, b: DrvId)
    requires s.refCounts == map[]
    ensures Count(InsertRef(s, a, b).refCounts, b) == 1
  {
  }

  lemma OnlyOneCached(s: Service, id: DrvId)
    requires s.graph.order == [id] && id in s.graph.nodes && id !in s.graph.nodes[id].dependencies
    ensures Referrers(s.graph.nodes, id) == {}
  {
    forall n | n in s.graph.nodes ensures n == id { assert n in s.graph.order; }
  }

  lemma {:induction false} DropNothing(nodes: Nodes, ids: seq<DrvId>)
    ensures DropAll(map[], nodes, ids) == map[]
    decreases |ids|
  {
    if ids != [] { DropNothing(nodes, ids[1..]); }
  }

  lemma InsertCountsNothing(s: Service, drv: Drv, now: nat)
    requires s.refCounts == map[]
    ensures InsertDrv(s, drv, now).refCounts == map[]
  {
    var pushed := InsertNode(s.graph, drv, now);
    if pushed.evicted.Some? { DropNothing(pushed.graph.nodes, pushed.evicted.value.1.dependencies); }
  }

  lemma {:induction false} NothingIsCounted(s: Service, drvs: seq<Drv>, now: nat)
    requires s.refCounts == map[]
    ensures InsertEach(s, drvs, now).refCounts == map[]
    decreases |drvs|
  {
    if drvs != [] {
      InsertCountsNothing(s, drvs[0], now);
      NothingIsCounted(InsertDrv(s, drvs[0], now), drvs[1..], now);
    }
  }

  lemma NoSelfReference(capacity: nat, a: Drv, b: Drv)
    requires 0 < capacity && a.id != b.id
    ensures var s := Pair(capacity, a, b);
            b.id in s.graph.nodes && b.id !in s.graph.nodes[b.id].dependencies
  {
    var s, refs := Pair(capacity, a, b), [(a.id, b.id)];
    PairHasInvariant(capacity, a, b);
    PairOrder(capacity, a, b);
    InOrder(s.graph, b.id);
    AtStart(capacity);
    PairIsStep(capacity, a, b);
    InsertStores(After(capacity, []), [a, b], refs, 0);
    assert (b.id, b.id) !in refs;
    assert AdjacentAt(s.graph.nodes, s.db.refs, b.id);
  }

  // ---------------------------------------------------------------- a spoilt mirror

  /** `a` depends on `b`; `a` is inserted again, and `c` then evicts `b`. */
  function ForgetfulRun(a: Drv, b: Drv, c: Drv, d: Drv): Commands {
    [] + [(InsertDrvsCmd([a, b, d], [(a.id, b.id)]), 0)] + [(InsertDrvsCmd([a], []), 1)] + [(InsertDrvsCmd([c], []), 2)]
  }

  lemma Triple(a: Drv, b: Drv, d: Drv)
    requires a.id != b.id && a.id != d.id && b.id != d.id
    ensures var s := After(3, [] + [(InsertDrvsCmd([a, b, d], [(a.id, b.id)]), 0)]);
            && s.graph.order == [a.id, b.id, d.id] && s.graph.capacity == 3 && Mirrored(s)
            && b.id in s.db.drvs && (a.id, b.id) in s.db.refs
  {
    var drvs, refs := [a, b, d], [(a.id, b.id)];
    FirstInsert(3, drvs, refs);
    assert drvs[1].id == b.id && refs[0] == (a.id, b.id);
  }

  lemma ForgetfulTwo(a: Drv, b: Drv, d: Drv)
    requires a.id != b.id && a.id != d.id && b.id != d.id
    ensures var s := After(3, [] + [(InsertDrvsCmd([a, b, d], [(a.id, b.id)]), 0)] + [(InsertDrvsCmd([a], []), 1)]);
            && s.graph.order == [b.id, d.id, a.id] && s.graph.capacity == 3 && Mirrored(s)
            && b.id in s.db.drvs && (a.id, b.id) in s.db.refs
            && a.id in s.graph.nodes && s.graph.nodes[a.id].dependencies == []
  {
    var first := [] + [(InsertDrvsCmd([a, b, d], [(a.id, b.id)]), 0)];
    Triple(a, b, d);
    Next(3, first, InsertDrvsCmd([a], []), 1);
    InsertAlone(After(3, first), a, 1);
    ReinsertOldest(After(3, first), a, 1);
    OnlyQueriesSpoilMirror(After(3, first), InsertDrvsCmd([a], []), 1);
  }

  /** An insertion of `c` that evicts `b` and leaves `a` as it is. */
  lemma EvictB(s: Service, a: DrvId, b: DrvId, c: Drv, d: DrvId, now: nat)
    requires s.graph.order == [b, d, a] && s.graph.capacity == 3 && Mirrored(s)
    requires a != b && c.id != a && c.id != b && c.id != d && a in s.graph.nodes
    ensures var t := Step(s, InsertDrvsCmd([c], []), now);
            && t.graph.order == [d, a, c.id] && Mirrored(t) && t.db.refs == s.db.refs && (b in s.db.drvs ==> b in t.db.drvs)
            && a in t.graph.nodes && t.graph.nodes[a] == s.graph.nodes[a]
  {
    InsertAlone(s, c, now);
    InOrder(s.graph, c.id);
    assert s.graph.order[1..] == [d, a];
    InsertDropsOldest(s, c, now, a);
    OnlyQueriesSpoilMirror(s, InsertDrvsCmd([c], []), now);
  }

  lemma Forgetful(a: Drv, b: Drv, c: Drv, d: Drv)
    requires Different(a, b, c, d)
    ensures var s := After(3, ForgetfulRun(a, b, c, d));
            && s.graph.order == [d.id, a.id, c.id] && Mirrored(s)
            && b.id in s.db.drvs && (a.id, b.id) in s.db.refs
            && a.id in s.graph.nodes && s.graph.nodes[a.id].dependencies == []
  {
    var second := [] + [(InsertDrvsCmd([a, b, d], [(a.id, b.id)]), 0)] + [(InsertDrvsCmd([a], []), 1)];
    ForgetfulTwo(a, b, d);
    Next(3, second, InsertDrvsCmd([c], []), 2);
    EvictB(After(3, second), a.id, b.id, c, d.id, 2);
  }

  /** A query of `b` then evicts `d` and adds the edge from `a` to the graph but not to the view. */
  lemma ReloadBreaksMirror(a: Drv, b: Drv, c: Drv, d: Drv)
    requires Different(a, b, c, d)
    ensures Mirrored(After(3, ForgetfulRun(a, b, c, d)))
    ensures !Mirrored(After(3, ForgetfulRun(a, b, c, d) + [(QueryCmd([b.id]), 3)]))
  {
    var s := After(3, ForgetfulRun(a, b, c, d));
    Forgetful(a, b, c, d);
    Next(3, ForgetfulRun(a, b, c, d), QueryCmd([b.id]), 3);
    QueryOne(s, b.id, 3);
    InOrder(s.graph, b.id);
    ReloadMirrorsIff(s, b.id, 3);
    assert !Displaced(s.graph, a.id);
  }

  // ---------------------------------------------------------------- over-counting after a reload

  /** `a` depends on `b`; `c` evicts `a` and `d` evicts `b`. */
  function EvictedPairRun(a: Drv, b: Drv, c: Drv, d: Drv): Commands {
    PairRun(a, b) + [(InsertDrvsCmd([c], []), 1)] + [(InsertDrvsCmd([d], []), 2)]
  }

  /** An uncached drv on a full cache of two: the second cached drv and the new one are left. */
  lemma InsertOnFull(s: Service, drv: Drv, now: nat, x: DrvId, y: DrvId)
    requires s.graph.order == [x, y] && s.graph.capacity == 2 && x != y && drv.id !in s.graph.nodes
    ensures var t := Step(s, InsertDrvsCmd([drv], []), now);
            && t.graph.order == [y, drv.id] && t.graph.capacity == 2 && t.db.refs == s.db.refs
            && (forall k :: k in s.db.drvs ==> k in t.db.drvs)
  {
    InOrder(s.graph, y);
    InsertAlone(s, drv, now);
    assert s.graph.order[1..] == [y];
    InsertDropsOldest(s, drv, now, y);
  }

  ghost predicate PairReady(s: Service, a: DrvId, b: DrvId, c: DrvId, d: DrvId) {
    && s.graph.order == [a, b] && s.graph.capacity == 2
    && c !in s.db.drvs && d !in s.db.drvs && b in s.db.drvs && (a, b) in s.db.refs
  }

  lemma PairIsReady(a: Drv, b: Drv, c: DrvId, d: DrvId)
    requires a.id != b.id && a.id != c && a.id != d && b.id != c && b.id != d
    ensures PairReady(Pair(2, a, b), a.id, b.id, c, d)
  {
    var s := Pair(2, a, b);
    assert s.graph.order == [a.id, b.id] && s.graph.capacity == 2 by { PairOrder(2, a, b); }
    assert b.id in s.db.drvs && (a.id, b.id) in s.db.refs by { PairIsStored(2, a, b); }
    assert c !in s.db.drvs && d !in s.db.drvs by { PairStoresNoMore(2, a, b); }
  }

  lemma EvictFirst(s: Service, a: DrvId, b: DrvId, c: Drv, now: nat, d: DrvId)
    requires Invariant(s) && PairReady(s, a, b, c.id, d) && a != b && c.id != d
    ensures var t := Step(s, InsertDrvsCmd([c], []), now);
            && Invariant(t) && t.graph.order == [b, c.id] && t.graph.capacity == 2
            && b in t.db.drvs && (a, b) in t.db.refs && d !in t.db.drvs
  {
    InsertNewKeeps(s, c, now);
    InsertOnFull(s, c, now, a, b);
    InsertStoresOne(s, c, now, d);
  }

  lemma EvictedPairHalfway(a: Drv, b: Drv, c: Drv, d: Drv)
    requires Different(a, b, c, d)
    ensures var s := After(2, PairRun(a, b) + [(InsertDrvsCmd([c], []), 1)]);
            && Invariant(s) && s.graph.order == [b.id, c.id] && s.graph.capacity == 2
            && b.id in s.db.drvs && (a.id, b.id) in s.db.refs && d.id !in s.db.drvs
  {
    PairHasInvariant(2, a, b);
    PairIsReady(a, b, c.id, d.id);
    Next(2, PairRun(a, b), InsertDrvsCmd([c], []), 1);
    EvictFirst(Pair(2, a, b), a.id, b.id, c, 1, d.id);
  }

  lemma EvictedPair(a: Drv, b: Drv, c: Drv, d: Drv)
    requires Different(a, b, c, d)
    ensures var s := After(2, EvictedPairRun(a, b, c, d));
            && Invariant(s) && s.graph.order == [c.id, d.id] && b.id in s.db.drvs && (a.id, b.id) in s.db.refs
  {
    var second := PairRun(a, b) + [(InsertDrvsCmd([c], []), 1)];
    EvictedPairHalfway(a, b, c, d);
    Next(2, second, InsertDrvsCmd([d], []), 2);
    InsertNewKeeps(After(2, second), d, 2);
    InsertOnFull(After(2, second), d, 2, b.id, c.id);
  }

  /** A query of `b` counts the stored row of `a`, which is not cached. */
  lemma ReloadOvercounts(a: Drv, b: Drv, c: Drv, d: Drv)
    requires Different(a, b, c, d)
    ensures var s := After(2, EvictedPairRun(a, b, c, d) + [(QueryCmd([b.id]), 3)]);
            Invariant(s) && b.id in s.graph.nodes && Excess(s, b.id) > 0
  {
    var s := After(2, EvictedPairRun(a, b, c, d));
    EvictedPair(a, b, c, d);
    Next(2, EvictedPairRun(a, b, c, d), QueryCmd([b.id]), 3);
    QueryOne(s, b.id, 3);
    InOrder(s.graph, a.id);
    InOrder(s.graph, b.id);
    ReloadExactIff(s, b.id, 3);
    assert !Stays(s.graph, a.id);
    EnsureLoadedKeeps(s, b.id, 3);
    ReloadIsCached(s, b.id, 3);
    assert CoveredAt(EnsureLoaded(s, b.id, 3), b.id);
  }

  lemma ReloadIsCached(s: Service, id: DrvId, now: nat)
    requires id !in s.graph.nodes && id in s.db.drvs
    ensures id in EnsureLoaded(s, id, now).graph.nodes
  {
    ReloadForgetsBlockers(s, id, now);
  }
}
