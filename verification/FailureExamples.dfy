/**
 Runs on which the failure tracking falls short, for each limit that holds only under a
 condition.
 */
module FailureExamples {
  import opened Drvs
  import opened Reachability
  import opened Graphs
  import opened Services
  import opened Mirror
  import opened Traces
  import opened FailureTracking
  import opened FailureRecords
  import opened ReloadedFailures
  import opened Reinsertions
  import opened InsertWindows
  import opened StoredDependents
  import opened Limits
  import opened ExampleRuns

  // ---------------------------------------------------------------- failures

  /** The pair after the second drv's failure was propagated, and after it was cleared again. */
  function FailedRun(a: Drv, b: Drv): Commands {
    PairRun(a, b) + [(PropagateFailureCmd(b.id), 1)]
  }

  function ClearedRun(a: Drv, b: Drv): Commands {
    FailedRun(a, b) + [(ClearFailureCmd(b.id), 2)]
  }

  lemma ClearedIsSteps(a: Drv, b: Drv)
    ensures After(2, FailedRun(a, b)) == Services.PropagateFailure(Pair(2, a, b), b.id)
    ensures After(2, ClearedRun(a, b)) == Services.ClearFailure(Services.PropagateFailure(Pair(2, a, b), b.id), b.id)
  {
    Next(2, PairRun(a, b), PropagateFailureCmd(b.id), 1);
    Next(2, FailedRun(a, b), ClearFailureCmd(b.id), 2);
  }

  /** A failure that is cleared again leaves the dependent queued, whatever it was doing. */
  lemma ClearForgetsState(a: Drv, b: Drv)
    requires a.id != b.id
    ensures var s, t := Pair(2, a, b), After(2, ClearedRun(a, b));
            && a.id in s.graph.nodes && s.graph.nodes[a.id].state == a.state
            && a.id in t.graph.nodes && t.graph.nodes[a.id].state == Queued
  {
    PairIsLinked(2, a, b);
    PairNodes(2, a, b);
    ClearedIsSteps(a, b);
    PropagateThenClear(Pair(2, a, b).graph, b.id, a.id);
    assert {} - {b.id} == {};
  }

  /** The released dependent is queued in the graph and stored as failed. */
  lemma ClearIsNotStored(a: Drv, b: Drv)
    requires a.id != b.id
    ensures var t := After(2, ClearedRun(a, b));
            && a.id in t.graph.nodes && t.graph.nodes[a.id].state == Queued
            && a.id in t.db.drvs && t.db.drvs[a.id].state == TransitiveFailure
  {
    ClearForgetsState(a, b);
    PairIsLinked(2, a, b);
    PairIsStored(2, a, b);
    ClearedIsSteps(a, b);
    StoredAsFailed(Pair(2, a, b), b.id, a.id);
  }

  lemma StoredAsFailed(s: Service, f: DrvId, n: DrvId)
    requires n in TransitiveDependents(s.graph.nodes, f) && n in s.db.drvs
    ensures var t := Services.ClearFailure(Services.PropagateFailure(s, f), f);
            n in t.db.drvs && t.db.drvs[n].state == TransitiveFailure
  {
  }

  function ForgottenRun(a: Drv, b: Drv): Commands {
    FailedRun(a, b) + [(PruneCmd(1), 2)] + [(ClearFailureCmd(b.id), 3)]
  }

  lemma PrunedIsStep(a: Drv, b: Drv)
    ensures After(2, FailedRun(a, b) + [(PruneCmd(1), 2)]).graph == EvictStaleFailures(After(2, FailedRun(a, b)).graph, 1)
  {
    Next(2, FailedRun(a, b), PruneCmd(1), 2);
  }

  lemma ForgottenIsSteps(a: Drv, b: Drv)
    ensures After(2, ForgottenRun(a, b)).graph
         == Graphs.ClearFailure(EvictStaleFailures(After(2, FailedRun(a, b)).graph, 1), b.id)
  {
    PrunedIsStep(a, b);
    Next(2, FailedRun(a, b) + [(PruneCmd(1), 2)], ClearFailureCmd(b.id), 3);
  }

  /** A clear frees the dependent. */
  lemma ClearFrees(a: Drv, b: Drv)
    requires a.id != b.id
    ensures !BlockedBy(After(2, ClearedRun(a, b)).graph, a.id, b.id)
  {
    PairIsLinked(2, a, b);
    ClearedIsSteps(a, b);
    PropagateThenClear(Pair(2, a, b).graph, b.id, a.id);
  }

  /** Once the failure is forgotten, clearing it no longer does. */
  lemma ForgettingStrands(a: Drv, b: Drv)
    requires a.id != b.id && b.state == FAILED
    ensures BlockedBy(After(2, ForgottenRun(a, b)).graph, a.id, b.id)
  {
    var g := Pair(2, a, b).graph;
    PairIsLinked(2, a, b);
    PairNodes(2, a, b);
    ClearedIsSteps(a, b);
    ForgottenIsSteps(a, b);
    PropagationBlocks(g, b.id, a.id);
    ForgottenFailureKeepsBlocking(Graphs.PropagateFailure(g, b.id), b.id, a.id, 1);
  }

  lemma PropagationBlocks(g: Graph, f: DrvId, n: DrvId)
    requires n in TransitiveDependents(g.nodes, f)
    ensures var h := Graphs.PropagateFailure(g, f);
            && (n in g.nodes ==> BlockedBy(h, n, f)) && h.failed == g.failed
            && f in Naming(h, n) && Naming(g, n) <= Naming(h, n)
  {
    forall k | k in Naming(g, n) ensures k in Naming(Graphs.PropagateFailure(g, f), n) { }
  }

  // ---------------------------------------------------------------- failures and evictions

  /** `a` has failed; `b` evicts it, and `a` succeeds while it is not cached. */
  function StaleRun(a: Drv, b: Drv): Commands {
    [] + [(InsertDrvsCmd([a], []), 0)] + [(InsertDrvsCmd([b], []), 1)] + [(UpdateStateCmd(a.id, SUCCEEDED), 2)]
  }

  lemma UpdateUncached(s: Service, id: DrvId, state: BuildState, now: nat)
    requires id !in s.graph.nodes && id in s.db.drvs
    ensures var t := Step(s, UpdateStateCmd(id, state), now);
            t.graph == s.graph && id in t.db.drvs && t.db.drvs[id].state == state
  {
  }

  lemma StaleRunFacts(a: Drv, b: Drv)
    requires a.id != b.id && a.state == FAILED
    ensures var s := After(1, StaleRun(a, b));
            a.id !in s.graph.nodes && a.id in s.graph.failed && a.id in s.db.drvs && s.db.drvs[a.id].state == SUCCEEDED
  {
    var first := [] + [(InsertDrvsCmd([a], []), 0)];
    var second := first + [(InsertDrvsCmd([b], []), 1)];
    OneIsCached(a);
    Next(1, first, InsertDrvsCmd([b], []), 1);
    InsertAlone(After(1, first), b, 1);
    NextEvicts(After(1, first), b, 1, a.id);
    Next(1, second, UpdateStateCmd(a.id, SUCCEEDED), 2);
    UpdateUncached(After(1, second), a.id, SUCCEEDED, 2);
  }

  /** A query brings `a` back as succeeded while it is still on record as failed. */
  lemma RecordGoesStale(a: Drv, b: Drv)
    requires a.id != b.id && a.state == FAILED
    ensures Stale(After(1, StaleRun(a, b) + [(QueryCmd([a.id]), 3)]).graph, a.id)
  {
    StaleRunFacts(a, b);
    Next(1, StaleRun(a, b), QueryCmd([a.id]), 3);
    QueryOne(After(1, StaleRun(a, b)), a.id, 3);
    ReloadIsStaleIff(After(1, StaleRun(a, b)), a.id, 3);
  }

  /** `c` depends on `a`, which fails; then `b` is inserted, on which `c` depends as well, and evicts `c`. */
  function CrowdingRun(a: Drv, b: Drv, c: Drv): Commands {
    FailedRun(c, a) + [(InsertDrvsCmd([b], [(c.id, b.id)]), 2)]
  }

  /** `b` fails too. */
  function CrowdedRun(a: Drv, b: Drv, c: Drv): Commands {
    CrowdingRun(a, b, c) + [(PropagateFailureCmd(b.id), 3)]
  }

  lemma FailedPair(a: Drv, b: Drv)
    requires a.id != b.id
    ensures var s := After(2, FailedRun(a, b));
            && s.graph.order == [a.id, b.id] && s.graph.capacity == 2
            && b.id in Naming(s.graph, a.id) && a.id in s.db.drvs
  {
    var s := Pair(2, a, b);
    PairOrder(2, a, b);
    PairIsLinked(2, a, b);
    PairIsStored(2, a, b);
    ClearedIsSteps(a, b);
    PropagationBlocks(s.graph, b.id, a.id);
    PropagateFailureStatesOnly(s, b.id);
  }

  /** Inserting a new drv together with a reference to it from a drv that the insertion evicts. */
  lemma InsertBelowEvicted(s: Service, c: DrvId, a: DrvId, b: Drv, now: nat)
    requires s.graph.order == [c, a] && s.graph.capacity == 2 && b.id != a && b.id != c
    ensures var t := Step(s, InsertDrvsCmd([b], [(c, b.id)]), now);
            && t.graph.order == [a, b.id] && t.graph.failureMap == s.graph.failureMap
            && Edge(t.graph.nodes, b.id, c) && (c in s.db.drvs ==> c in t.db.drvs)
  {
    var drvs, refs := [b], [(c, b.id)];
    InOrder(s.graph, b.id);
    assert DistinctUncached(s.graph, drvs);
    InsertOrder(s, drvs, refs, now);
    assert s.graph.order + Ids(drvs) == [c, a, b.id];
    InsertFrame(s, drvs, refs, now);
    InsertStores(s, drvs, refs, now);
    LinkAlone(InsertEach(s, drvs, now), c, b.id);
    InOrder(Step(s, InsertDrvsCmd(drvs, refs), now).graph, b.id);
    LinkRecordsDependent(InsertEach(s, drvs, now), c, b.id);
  }

  lemma LinkRecordsDependent(s: Service, a: DrvId, b: DrvId)
    ensures b in InsertRef(s, a, b).graph.nodes ==> Edge(InsertRef(s, a, b).graph.nodes, b, a)
  {
  }

  lemma Crowding(a: Drv, b: Drv, c: Drv)
    requires a.id != b.id && a.id != c.id && b.id != c.id
    ensures var s := After(2, CrowdingRun(a, b, c));
            && s.graph.order == [a.id, b.id] && c.id in s.db.drvs
            && a.id in Naming(s.graph, c.id) && Edge(s.graph.nodes, b.id, c.id)
  {
    FailedPair(c, a);
    Next(2, FailedRun(c, a), InsertDrvsCmd([b], [(c.id, b.id)]), 2);
    InsertBelowEvicted(After(2, FailedRun(c, a)), c.id, a.id, b, 2);
  }

  lemma Crowded(a: Drv, b: Drv, c: Drv)
    requires a.id != b.id && a.id != c.id && b.id != c.id
    ensures var s := After(2, CrowdedRun(a, b, c));
            c.id !in s.graph.nodes && c.id in s.db.drvs && a.id in Naming(s.graph, c.id) && b.id in Naming(s.graph, c.id)
  {
    var s := After(2, CrowdingRun(a, b, c));
    Crowding(a, b, c);
    InOrder(s.graph, c.id);
    Next(2, CrowdingRun(a, b, c), PropagateFailureCmd(b.id), 3);
    DependentIsReached(s.graph.nodes, b.id, c.id);
    PropagationBlocks(s.graph, b.id, c.id);
    PropagateFailureStatesOnly(s, b.id);
  }

  function ReleasedRun(a: Drv, b: Drv, c: Drv): Commands {
    CrowdedRun(a, b, c) + [(QueryCmd([c.id]), 4)] + [(ClearFailureCmd(a.id), 5)]
  }

  lemma ReleasedIsSteps(a: Drv, b: Drv, c: Drv)
    ensures After(2, ReleasedRun(a, b, c)).graph
         == Graphs.ClearFailure(EnsureLoaded(After(2, CrowdedRun(a, b, c)), c.id, 4).graph, a.id)
  {
    Next(2, CrowdedRun(a, b, c), QueryCmd([c.id]), 4);
    QueryOne(After(2, CrowdedRun(a, b, c)), c.id, 4);
    Next(2, CrowdedRun(a, b, c) + [(QueryCmd([c.id]), 4)], ClearFailureCmd(a.id), 5);
  }

  /** Once `c` is reloaded, clearing `a` queues it although `b` is still on record as blocking it. */
  lemma ReloadReleasesEarly(a: Drv, b: Drv, c: Drv)
    requires a.id != b.id && a.id != c.id && b.id != c.id
    ensures var g := After(2, ReleasedRun(a, b, c)).graph;
            c.id in g.nodes && g.nodes[c.id].state == Queued && Naming(g, c.id) != {}
  {
    Crowded(a, b, c);
    ReleasedIsSteps(a, b, c);
    ReloadReleasesEarlyIff(After(2, CrowdedRun(a, b, c)), c.id, 4, a.id);
    assert b.id !in {a.id};
  }

  // ---------------------------------------------------------------- failures and re-insertions

  /** The same failures with room for all three; then `c` is inserted again and `a` is cleared. */
  function ResentRun(a: Drv, b: Drv, c: Drv): Commands {
    CrowdedRun(a, b, c) + [(InsertDrvsCmd([c], []), 4)]
  }

  /** Inserting a drv together with a reference to it records the referrer, cached or not. */
  lemma InsertBelow(s: Service, c: DrvId, b: Drv, now: nat)
    ensures var t := Step(s, InsertDrvsCmd([b], [(c, b.id)]), now);
            Edge(t.graph.nodes, b.id, c) && t.graph.failureMap == s.graph.failureMap
  {
    InsertFrame(s, [b], [(c, b.id)], now);
    InsertJust(s, b, now);
    LinkAlone(InsertDrv(s, b, now), c, b.id);
    LinkingFrame(InsertDrv(s, b, now), [(c, b.id)]);
    LinkRecordsDependent(InsertDrv(s, b, now), c, b.id);
  }

  lemma RoomyFailedPair(a: Drv, b: Drv)
    requires a.id != b.id
    ensures b.id in Naming(After(3, FailedRun(a, b)).graph, a.id)
  {
    PairIsLinked(3, a, b);
    Next(3, PairRun(a, b), PropagateFailureCmd(b.id), 1);
    PropagationBlocks(Pair(3, a, b).graph, b.id, a.id);
  }

  lemma RoomyCrowded(a: Drv, b: Drv, c: Drv)
    requires a.id != b.id && a.id != c.id && b.id != c.id
    ensures var g := After(3, CrowdedRun(a, b, c)).graph; a.id in Naming(g, c.id) && b.id in Naming(g, c.id)
  {
    var s := After(3, CrowdingRun(a, b, c));
    RoomyFailedPair(c, a);
    Next(3, FailedRun(c, a), InsertDrvsCmd([b], [(c.id, b.id)]), 2);
    InsertBelow(After(3, FailedRun(c, a)), c.id, b, 2);
    Next(3, CrowdingRun(a, b, c), PropagateFailureCmd(b.id), 3);
    DependentIsReached(s.graph.nodes, b.id, c.id);
    PropagationBlocks(s.graph, b.id, c.id);
  }

  /** Once `c` is inserted again, clearing `a` queues it although `b` is still on record as blocking it. */
  lemma ReinsertReleasesEarly(a: Drv, b: Drv, c: Drv)
    requires a.id != b.id && a.id != c.id && b.id != c.id
    ensures ReleasedEarly(After(3, ResentRun(a, b, c)).graph, a.id, c.id)
  {
    RoomyCrowded(a, b, c);
    Next(3, CrowdedRun(a, b, c), InsertDrvsCmd([c], []), 4);
    InsertAlone(After(3, CrowdedRun(a, b, c)), c, 4);
    InsertReleasesEarlyIff(After(3, CrowdedRun(a, b, c)), c, 4, a.id);
    assert b.id !in {a.id};
  }

  // ---------------------------------------------------------------- hidden dependents

  /** `n` depends on `m`, which depends on `a`. */
  function InsertChain(m: Drv, a: Drv, n: Drv): Command {
    InsertDrvsCmd([m, a, n], [(m.id, a.id), (n.id, m.id)])
  }

  function ChainRun(m: Drv, a: Drv, n: Drv): Commands {
    [] + [(InsertChain(m, a, n), 0)]
  }

  /** `a` fails, and then `x` evicts `m`. */
  function HiddenRun(m: Drv, a: Drv, n: Drv, x: Drv): Commands {
    ChainRun(m, a, n) + [(PropagateFailureCmd(a.id), 1)] + [(InsertDrvsCmd([x], []), 2)]
  }

  lemma ChainIsNew(s: Service, m: Drv, a: Drv, n: Drv)
    requires m.id != a.id && m.id != n.id && a.id != n.id
    requires s.db == NO_DATA
    ensures NewDrvs(s, [m, a, n], [(m.id, a.id), (n.id, m.id)])
  {
    var drvs := [m, a, n];
    ThreeDistinct(m, a, n);
    assert drvs[0].id == m.id && drvs[1].id == a.id && drvs[2].id == n.id;
  }

  predicate ChainRow(m: DrvId, a: DrvId, n: DrvId, e: (DrvId, DrvId)) {
    e == (m, a) || e == (n, m)
  }

  lemma ChainHasInvariant(m: Drv, a: Drv, n: Drv)
    requires m.id != a.id && m.id != n.id && a.id != n.id
    ensures Invariant(After(3, ChainRun(m, a, n)))
  {
    AtStart(3);
    Next(3, [], InsertChain(m, a, n), 0);
    ChainIsNew(After(3, []), m, a, n);
    StepKeeps(After(3, []), InsertChain(m, a, n), 0);
  }

  lemma ChainOrder(m: Drv, a: Drv, n: Drv)
    requires m.id != a.id && m.id != n.id && a.id != n.id
    ensures var s := After(3, ChainRun(m, a, n)); s.graph.order == [m.id, a.id, n.id] && s.graph.capacity == 3
  {
    var drvs := [m, a, n];
    ThreeDistinct(m, a, n);
    FirstInsert(3, drvs, [(m.id, a.id), (n.id, m.id)]);
    assert Ids(drvs) == [m.id, a.id, n.id];
  }

  /** Exactly the two references are stored. */
  lemma ChainRefs(m: Drv, a: Drv, n: Drv, e: (DrvId, DrvId))
    ensures e in After(3, ChainRun(m, a, n)).db.refs <==> ChainRow(m.id, a.id, n.id, e)
  {
    AtStart(3);
    Next(3, [], InsertChain(m, a, n), 0);
    InsertStores(After(3, []), [m, a, n], [(m.id, a.id), (n.id, m.id)], 0);
  }

  lemma ChainStores(m: Drv, a: Drv, n: Drv, id: DrvId)
    ensures id in After(3, ChainRun(m, a, n)).db.drvs <==> id == m.id || id == a.id || id == n.id
  {
    var drvs := [m, a, n];
    AtStart(3);
    Next(3, [], InsertChain(m, a, n), 0);
    InsertStores(After(3, []), drvs, [(m.id, a.id), (n.id, m.id)], 0);
    assert drvs[0].id == m.id && drvs[1].id == a.id && drvs[2].id == n.id;
  }

  lemma ChainReaches(s: Service, m: DrvId, a: DrvId, n: DrvId)
    requires Invariant(s) && s.graph.order == [m, a, n] && a != n && (m, a) in s.db.refs && (n, m) in s.db.refs
    ensures n in TransitiveDependents(s.graph.nodes, a) && n in s.graph.nodes
  {
    InOrder(s.graph, m);
    InOrder(s.graph, a);
    InOrder(s.graph, n);
    EdgeIsRow(s, a, m);
    EdgeIsRow(s, m, n);
    ReachesSelf(s.graph.nodes, a);
    ReachesStep(s.graph.nodes, a, a, m);
    ReachesStep(s.graph.nodes, a, m, n);
  }

  lemma FailedChain(m: Drv, a: Drv, n: Drv)
    requires m.id != a.id && m.id != n.id && a.id != n.id
    ensures var s := After(3, ChainRun(m, a, n) + [(PropagateFailureCmd(a.id), 1)]);
            && Invariant(s) && s.graph.order == [m.id, a.id, n.id] && s.graph.capacity == 3
            && BlockedBy(s.graph, n.id, a.id)
  {
    var s := After(3, ChainRun(m, a, n));
    ChainHasInvariant(m, a, n);
    ChainOrder(m, a, n);
    ChainRefs(m, a, n, (m.id, a.id));
    ChainRefs(m, a, n, (n.id, m.id));
    ChainReaches(s, m.id, a.id, n.id);
    Next(3, ChainRun(m, a, n), PropagateFailureCmd(a.id), 1);
    StepKeeps(s, PropagateFailureCmd(a.id), 1);
    PropagationBlocks(s.graph, a.id, n.id);
  }

  lemma FailedChainStores(m: Drv, a: Drv, n: Drv, id: DrvId, e: (DrvId, DrvId))
    ensures var s := After(3, ChainRun(m, a, n) + [(PropagateFailureCmd(a.id), 1)]);
            && (e in s.db.refs <==> ChainRow(m.id, a.id, n.id, e))
            && (id in s.db.drvs <==> id == m.id || id == a.id || id == n.id)
  {
    Next(3, ChainRun(m, a, n), PropagateFailureCmd(a.id), 1);
    PropagateFailureStatesOnly(After(3, ChainRun(m, a, n)), a.id);
    ChainStores(m, a, n, id);
    ChainRefs(m, a, n, e);
  }

  /** The insertion of `x` evicts `m` and leaves `n` as it is. */
  lemma EvictM(s: Service, m: DrvId, a: DrvId, n: DrvId, x: Drv, now: nat)
    requires s.graph.order == [m, a, n] && s.graph.capacity == 3 && m != a && m != n && x.id != m && x.id !in s.graph.nodes
    ensures var t := Step(s, InsertDrvsCmd([x], []), now);
            && m !in t.graph.nodes && t.db.refs == s.db.refs
            && n in s.graph.nodes && n in t.graph.nodes && t.graph.nodes[n] == s.graph.nodes[n]
  {
    InOrder(s.graph, n);
    InsertAlone(s, x, now);
    InsertDropsOldest(s, x, now, n);
    assert s.graph.order[1..] == [a, n];
    InOrder(InsertDrv(s, x, now).graph, m);
  }

  lemma Hidden(m: Drv, a: Drv, n: Drv, x: Drv)
    requires Different(m, a, n, x)
    ensures var s := After(3, HiddenRun(m, a, n, x));
            Invariant(s) && m.id !in s.graph.nodes && n.id in s.graph.nodes && BlockedBy(s.graph, n.id, a.id)
  {
    var second := ChainRun(m, a, n) + [(PropagateFailureCmd(a.id), 1)];
    FailedChain(m, a, n);
    FailedChainStores(m, a, n, x.id, (m.id, a.id));
    Next(3, second, InsertDrvsCmd([x], []), 2);
    InsertNewKeeps(After(3, second), x, 2);
    EvictM(After(3, second), m.id, a.id, n.id, x, 2);
  }

  lemma HiddenRefs(m: Drv, a: Drv, n: Drv, x: Drv, e: (DrvId, DrvId))
    ensures e in After(3, HiddenRun(m, a, n, x)).db.refs <==> ChainRow(m.id, a.id, n.id, e)
  {
    var second := ChainRun(m, a, n) + [(PropagateFailureCmd(a.id), 1)];
    FailedChainStores(m, a, n, x.id, e);
    Next(3, second, InsertDrvsCmd([x], []), 2);
    InsertStores(After(3, second), [x], [], 2);
  }

  lemma LastStepIsM(refs: Refs, p: seq<DrvId>, m: DrvId, a: DrvId, n: DrvId)
    requires Recovery.IsRefPath(refs, p) && p[0] == a && p[|p| - 1] == n && n != m && n != a
    requires forall e :: e in refs ==> ChainRow(m, a, n, e)
    ensures |p| > 1 && p[|p| - 2] == m
  {
    assert (p[|p| - 1], p[|p| - 2]) in refs;
  }

  /** The only way from `a` to `n` leads through `m`. */
  lemma OnlyThroughM(s: Service, m: DrvId, a: DrvId, n: DrvId)
    requires Invariant(s) && n in s.graph.nodes && n != m
    requires forall e :: e in s.db.refs ==> ChainRow(m, a, n, e)
    ensures n in TransitiveDependents(s.graph.nodes, a) ==> m in s.graph.nodes
  {
    ReachedIff(s, a, n);
    if n != a && DependsThroughCache(s, n, a) {
      var p :| Recovery.IsRefPath(s.db.refs, p) && AllIn(p, s.graph.nodes) && p[0] == a && p[|p| - 1] == n;
      LastStepIsM(s.db.refs, p, m, a, n);
      assert p[|p| - 2] in s.graph.nodes;
    }
  }

  lemma HiddenIsUnreached(m: Drv, a: Drv, n: Drv, x: Drv)
    requires Different(m, a, n, x)
    ensures n.id !in TransitiveDependents(After(3, HiddenRun(m, a, n, x)).graph.nodes, a.id)
  {
    var s := After(3, HiddenRun(m, a, n, x));
    Hidden(m, a, n, x);
    forall e | e in s.db.refs ensures ChainRow(m.id, a.id, n.id, e) { HiddenRefs(m, a, n, x, e); }
    OnlyThroughM(s, m.id, a.id, n.id);
  }

  /** An evicted drv hides a dependent: `n` depends on `a`, is cached, and is not reached. */
  lemma EvictionHidesDependent(m: Drv, a: Drv, n: Drv, x: Drv)
    requires Different(m, a, n, x)
    ensures var s := After(3, HiddenRun(m, a, n, x));
            && n.id in s.graph.nodes && Recovery.DependsOn(s.db.refs, n.id, a.id)
            && n.id !in TransitiveDependents(s.graph.nodes, a.id)
  {
    Hidden(m, a, n, x);
    HiddenIsUnreached(m, a, n, x);
    HiddenRefs(m, a, n, x, (m.id, a.id));
    HiddenRefs(m, a, n, x, (n.id, m.id));
    TwoSteps(After(3, HiddenRun(m, a, n, x)).db.refs, m.id, a.id, n.id);
  }

  lemma TwoSteps(refs: Refs, m: DrvId, a: DrvId, n: DrvId)
    requires (m, a) in refs && (n, m) in refs
    ensures Recovery.DependsOn(refs, n, a)
  {
    var p := [a, m, n];
    assert Recovery.IsRefPath(refs, p) && p[0] == a && p[|p| - 1] == n;
  }

  function HiddenAgainRun(m: Drv, a: Drv, n: Drv, x: Drv): Commands {
    HiddenRun(m, a, n, x) + [(PropagateFailureCmd(a.id), 3)]
  }

  lemma HiddenAgainIsSteps(m: Drv, a: Drv, n: Drv, x: Drv)
    ensures var g := After(3, HiddenRun(m, a, n, x)).graph;
            && After(3, HiddenAgainRun(m, a, n, x)).graph == Graphs.PropagateFailure(g, a.id)
            && After(3, HiddenAgainRun(m, a, n, x) + [(ClearFailureCmd(a.id), 4)]).graph
            == Graphs.ClearFailure(Graphs.PropagateFailure(g, a.id), a.id)
  {
    Next(3, HiddenRun(m, a, n, x), PropagateFailureCmd(a.id), 3);
    Next(3, HiddenAgainRun(m, a, n, x), ClearFailureCmd(a.id), 4);
  }

  /** A second propagation replaces the map entry by a smaller one; the clear then leaves `n` blocked, although the entry was there. */
  lemma OverwrittenEntryStrands(m: Drv, a: Drv, n: Drv, x: Drv)
    requires Different(m, a, n, x)
    ensures a.id in After(3, HiddenAgainRun(m, a, n, x)).graph.failureMap
    ensures BlockedBy(After(3, HiddenAgainRun(m, a, n, x) + [(ClearFailureCmd(a.id), 4)]).graph, n.id, a.id)
  {
    Hidden(m, a, n, x);
    HiddenIsUnreached(m, a, n, x);
    HiddenAgainIsSteps(m, a, n, x);
    UnreachedStaysBlocked(After(3, HiddenRun(m, a, n, x)).graph, a.id, n.id);
  }

  lemma UnreachedStaysBlocked(g: Graph, f: DrvId, n: DrvId)
    requires BlockedBy(g, n, f) && n !in TransitiveDependents(g.nodes, f)
    ensures f in Graphs.PropagateFailure(g, f).failureMap
    ensures BlockedBy(Graphs.ClearFailure(Graphs.PropagateFailure(g, f), f), n, f)
  {
    ClearReleases(Graphs.PropagateFailure(g, f), f, n);
  }
}
