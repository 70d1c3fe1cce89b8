/**
 Runs of the service that start on an empty database, and what their commands do.
 */
module ExampleRuns {
  import opened Sequences
  import opened Drvs
  import opened Reachability
  import opened Graphs
  import opened GraphOps
  import opened Services
  import opened Mirror
  import opened Startup
  import opened Traces
  import opened Reinsertions
  import opened InsertWindows

  type Commands = seq<(Command, nat)>

  const NO_DATA := Database(map[], [])

  /** The service after a run that starts on an empty database. */
  ghost function After(capacity: nat, cmds: Commands): Service
    requires 0 < capacity
  {
    Run(Start(NO_DATA, capacity, [], [], 0), cmds)
  }

  lemma AtStart(capacity: nat)
    requires 0 < capacity
    ensures After(capacity, []) == Service(Empty(capacity), map[], map[], map[], NO_DATA)
    ensures Invariant(After(capacity, []))
  {
    StartEstablishes(NO_DATA, capacity, [], [], 0);
    var s := Start(NO_DATA, capacity, [], [], 0);
    assert s.graph == Empty(capacity);
    assert s.view == map[] && s.refCounts == map[] && s.lastAccessed == map[];
  }

  lemma {:induction false} RunSnoc(s: Service, cmds: Commands, cmd: Command, now: nat)
    ensures Run(s, cmds + [(cmd, now)]) == Step(Run(s, cmds), cmd, now)
    decreases |cmds|
  {
    var more := cmds + [(cmd, now)];
    if cmds == [] {
      assert more[0] == (cmd, now) && more[1..] == [];
    } else {
      assert more[0] == cmds[0] && more[1..] == cmds[1..] + [(cmd, now)];
      RunSnoc(Step(s, cmds[0].0, cmds[0].1), cmds[1..], cmd, now);
    }
  }

  // ---------------------------------------------------------------- what the commands do

  /** The cache after an insertion of uncached drvs. */
  lemma InsertOrder(s: Service, drvs: seq<Drv>, refs: Refs, now: nat)
    requires DistinctUncached(s.graph, drvs)
    ensures Step(s, InsertDrvsCmd(drvs, refs), now).graph.order == LastOf(s.graph.order + Ids(drvs), s.graph.capacity)
  {
    InsertEachIsOps(s, drvs, now);
    InsertsOrder(s.graph, drvs, now);
    LinkingFrame(InsertEach(s, drvs, now), refs);
  }

  lemma {:induction false} InsertsFrame(g: Graph, drvs: seq<Drv>, now: nat)
    ensures RunOps(g, Inserts(drvs, now)).failureMap == g.failureMap
    ensures RunOps(g, Inserts(drvs, now)).capacity == g.capacity
    decreases |drvs|
  {
    if drvs != [] {
      assert Inserts(drvs, now)[1..] == Inserts(drvs[1..], now);
      InsertsFrame(InsertNode(g, drvs[0], now).graph, drvs[1..], now);
    }
  }

  /** An insert command leaves the failure map and the capacity alone. */
  lemma InsertFrame(s: Service, drvs: seq<Drv>, refs: Refs, now: nat)
    ensures var t := Step(s, InsertDrvsCmd(drvs, refs), now);
            t.graph.failureMap == s.graph.failureMap && t.graph.capacity == s.graph.capacity
  {
    InsertEachIsOps(s, drvs, now);
    InsertsFrame(s.graph, drvs, now);
    LinkingFrame(InsertEach(s, drvs, now), refs);
  }

  /** What an insert command stores. */
  lemma InsertStores(s: Service, drvs: seq<Drv>, refs: Refs, now: nat)
    ensures var t := Step(s, InsertDrvsCmd(drvs, refs), now);
            && (forall id :: id in t.db.drvs <==> Known(s, drvs, id))
            && (forall e :: e in t.db.refs <==> e in s.db.refs || e in refs)
  {
    InsertEachStored(s, drvs, now);
    InsertEachRefs(s, drvs, now);
    LinkEachStored(InsertEach(s, drvs, now), refs);
    LinkEachRefs(InsertEach(s, drvs, now), refs);
  }

  /** Inserting one drv and nothing else. */
  lemma InsertAlone(s: Service, drv: Drv, now: nat)
    ensures Step(s, InsertDrvsCmd([drv], []), now) == InsertDrv(s, drv, now)
  {
    var drvs := [drv];
    assert drvs[1..] == [];
    assert InsertEach(s, drvs, now) == InsertEach(InsertDrv(s, drvs[0], now), [], now);
  }

  lemma QueryOne(s: Service, id: DrvId, now: nat)
    ensures Step(s, QueryCmd([id]), now) == EnsureLoaded(s, id, now)
  {
    var ids := [id];
    assert ids[1..] == [];
    assert EnsureAllLoaded(s, ids, now) == EnsureAllLoaded(EnsureLoaded(s, ids[0], now), [], now);
  }

  // ---------------------------------------------------------------- a pair of drvs

  function InsertPair(a: Drv, b: Drv): Command {
    InsertDrvsCmd([a, b], [(a.id, b.id)])
  }

  /** The first drv depends on the second; the first command of the run inserts both. */
  ghost function Pair(capacity: nat, a: Drv, b: Drv): Service
    requires 0 < capacity
  {
    After(capacity, [(InsertPair(a, b), 0)])
  }

  lemma PairIsStep(capacity: nat, a: Drv, b: Drv)
    requires 0 < capacity
    ensures Pair(capacity, a, b) == Step(After(capacity, []), InsertPair(a, b), 0)
  {
    RunSnoc(Start(NO_DATA, capacity, [], [], 0), [], InsertPair(a, b), 0);
    assert [] + [(InsertPair(a, b), 0)] == [(InsertPair(a, b), 0)];
  }

  lemma PairIsNew(s: Service, a: Drv, b: Drv)
    requires a.id != b.id && a.id !in s.db.drvs && b.id !in s.db.drvs
    ensures NewDrvs(s, [a, b], [(a.id, b.id)])
  {
    var drvs := [a, b];
    assert drvs[0].id == a.id && drvs[1].id == b.id;
  }

  lemma PairHasInvariant(capacity: nat, a: Drv, b: Drv)
    requires 0 < capacity && a.id != b.id
    ensures Invariant(Pair(capacity, a, b))
  {
    AtStart(capacity);
    PairIsStep(capacity, a, b);
    PairIsNew(After(capacity, []), a, b);
    StepKeeps(After(capacity, []), InsertPair(a, b), 0);
  }

  lemma PairIsStored(capacity: nat, a: Drv, b: Drv)
    requires 0 < capacity
    ensures var s := Pair(capacity, a, b);
            a.id in s.db.drvs && b.id in s.db.drvs && (a.id, b.id) in s.db.refs
  {
    var drvs, refs := [a, b], [(a.id, b.id)];
    PairIsStep(capacity, a, b);
    InsertStores(After(capacity, []), drvs, refs, 0);
    assert drvs[0].id == a.id && drvs[1].id == b.id && (a.id, b.id) in refs;
  }

  lemma PairOrder(capacity: nat, a: Drv, b: Drv)
    requires 0 < capacity && a.id != b.id
    ensures Pair(capacity, a, b).graph.order == if capacity == 1 then [b.id] else [a.id, b.id]
    ensures Pair(capacity, a, b).graph.capacity == capacity && Pair(capacity, a, b).graph.failureMap == map[]
  {
    var drvs, refs := [a, b], [(a.id, b.id)];
    AtStart(capacity);
    PairIsStep(capacity, a, b);
    PairIsNew(After(capacity, []), a, b);
    InsertOrder(After(capacity, []), drvs, refs, 0);
    InsertFrame(After(capacity, []), drvs, refs, 0);
    assert Ids(drvs) == [a.id, b.id] && [] + Ids(drvs) == Ids(drvs);
  }

  lemma InOrder(g: Graph, n: DrvId)
    ensures n in g.order <==> n in g.nodes
  {
  }

  /** With room for both, the pair is cached and linked. */
  lemma PairIsLinked(capacity: nat, a: Drv, b: Drv)
    requires 1 < capacity && a.id != b.id
    ensures var s := Pair(capacity, a, b);
            && a.id in s.graph.nodes && b.id in s.graph.nodes
            && b.id in s.graph.nodes[a.id].dependencies && a.id in s.graph.nodes[b.id].dependents
            && a.id in TransitiveDependents(s.graph.nodes, b.id)
  {
    var s := Pair(capacity, a, b);
    PairHasInvariant(capacity, a, b);
    PairIsStored(capacity, a, b);
    PairOrder(capacity, a, b);
    InOrder(s.graph, a.id);
    InOrder(s.graph, b.id);
    assert AdjacentAt(s.graph.nodes, s.db.refs, a.id) && AdjacentAt(s.graph.nodes, s.db.refs, b.id);
    DependentIsReached(s.graph.nodes, b.id, a.id);
  }

  lemma DependentIsReached(nodes: Nodes, f: DrvId, n: DrvId)
    requires Edge(nodes, f, n) && f != n
    ensures n in TransitiveDependents(nodes, f)
  {
    ReachesSelf(nodes, f);
    ReachesStep(nodes, f, f, n);
  }

  /** With room, an inserted drv keeps the state it came with and has no blockers; a failure is recorded. */
  lemma {:induction false} InsertsWithRoom(g: Graph, drvs: seq<Drv>, now: nat, i: nat)
    requires GraphOps.Fresh(g, drvs) && i < |drvs|
    ensures var h, drv := RunOps(g, Inserts(drvs, now)), drvs[i];
            && drv.id in h.nodes && h.nodes[drv.id] == FromDrv(drv)
            && (drv.state == FAILED ==> drv.id in h.failed && h.failed[drv.id] == now)
    decreases |drvs|
  {
    var h := InsertNode(g, drvs[0], now).graph;
    assert Inserts(drvs, now)[1..] == Inserts(drvs[1..], now);
    assert GraphOps.Fresh(h, drvs[1..]);
    if i > 0 {
      InsertsWithRoom(h, drvs[1..], now, i - 1);
    } else {
      InsertsKeepOthers(h, drvs[1..], now, drvs[0].id);
    }
  }

  lemma {:induction false} InsertsKeepOthers(g: Graph, drvs: seq<Drv>, now: nat, n: DrvId)
    requires GraphOps.Fresh(g, drvs) && n in g.nodes
    ensures var h := RunOps(g, Inserts(drvs, now));
            && n in h.nodes && h.nodes[n] == g.nodes[n]
            && (n in g.failed ==> n in h.failed && h.failed[n] == g.failed[n])
    decreases |drvs|
  {
    if drvs != [] {
      var h := InsertNode(g, drvs[0], now).graph;
      assert Inserts(drvs, now)[1..] == Inserts(drvs[1..], now);
      assert GraphOps.Fresh(h, drvs[1..]);
      InsertsKeepOthers(h, drvs[1..], now, n);
    }
  }

  lemma LinkingKeepsTheRest(s: Service, refs: Refs, n: DrvId)
    requires n in s.graph.nodes
    ensures var g := LinkEach(s, refs).graph;
            n in g.nodes && SameButEdges(s.graph.nodes[n], g.nodes[n]) && g.failed == s.graph.failed
  {
    LinkingFrame(s, refs);
    AddEdgesExtends(s.graph, refs, n);
  }

  /** The pair as it was inserted. */
  lemma PairNodes(capacity: nat, a: Drv, b: Drv)
    requires 1 < capacity && a.id != b.id
    ensures var g := Pair(capacity, a, b).graph;
            && a.id in g.nodes && b.id in g.nodes
            && g.nodes[a.id].state == a.state && g.nodes[a.id].blockers == {} && g.nodes[b.id].state == b.state
            && (b.state == FAILED ==> b.id in g.failed && g.failed[b.id] == 0)
  {
    var s, drvs, refs := After(capacity, []), [a, b], [(a.id, b.id)];
    AtStart(capacity);
    PairIsStep(capacity, a, b);
    assert GraphOps.Fresh(s.graph, drvs) by { PairIsNew(s, a, b); }
    InsertEachIsOps(s, drvs, 0);
    InsertsWithRoom(s.graph, drvs, 0, 0);
    InsertsWithRoom(s.graph, drvs, 0, 1);
    LinkingKeepsTheRest(InsertEach(s, drvs, 0), refs, a.id);
    LinkingKeepsTheRest(InsertEach(s, drvs, 0), refs, b.id);
  }

  lemma Next(capacity: nat, cmds: Commands, cmd: Command, now: nat)
    requires 0 < capacity
    ensures After(capacity, cmds + [(cmd, now)]) == Step(After(capacity, cmds), cmd, now)
  {
    RunSnoc(Start(NO_DATA, capacity, [], [], 0), cmds, cmd, now);
  }

  function PairRun(a: Drv, b: Drv): Commands {
    [(InsertPair(a, b), 0)]
  }

  // ---------------------------------------------------------------- single insertions

  lemma OneIsCached(a: Drv)
    ensures var s := After(1, [] + [(InsertDrvsCmd([a], []), 0)]);
            && s.graph.order == [a.id] && s.graph.capacity == 1 && a.id in s.graph.nodes && s.graph.nodes[a.id] == FromDrv(a)
            && a.id in s.db.drvs && (a.state == FAILED ==> a.id in s.graph.failed)
  {
    AtStart(1);
    Next(1, [], InsertDrvsCmd([a], []), 0);
    InsertAlone(After(1, []), a, 0);
  }

  /** In a full cache for one drv the next insertion evicts it, and changes nothing else about it. */
  lemma NextEvicts(s: Service, b: Drv, now: nat, a: DrvId)
    requires s.graph.order == [a] && s.graph.capacity == 1 && b.id != a
    ensures var t := InsertDrv(s, b, now);
            && a !in t.graph.nodes && (a in s.db.drvs ==> a in t.db.drvs)
            && (a in s.graph.failed ==> a in t.graph.failed)
  {
  }

  lemma LinkAlone(s: Service, a: DrvId, b: DrvId)
    ensures LinkEach(s, [(a, b)]) == InsertRef(s, a, b)
  {
    var refs := [(a, b)];
    assert refs[1..] == [];
    assert LinkEach(s, refs) == LinkEach(InsertRef(s, refs[0].0, refs[0].1), []);
  }

  predicate Different(a: Drv, b: Drv, c: Drv, d: Drv) {
    a.id != b.id && a.id != c.id && a.id != d.id && b.id != c.id && b.id != d.id && c.id != d.id
  }

  /** The first insertion of a run, for any distinct drvs. */
  lemma FirstInsert(capacity: nat, drvs: seq<Drv>, refs: Refs)
    requires 0 < capacity && forall i, j :: 0 <= i < j < |drvs| ==> drvs[i].id != drvs[j].id
    ensures var s := After(capacity, [] + [(InsertDrvsCmd(drvs, refs), 0)]);
            && s.graph.order == LastOf(Ids(drvs), capacity) && s.graph.capacity == capacity && Mirrored(s)
            && (forall i :: 0 <= i < |drvs| ==> drvs[i].id in s.db.drvs) && (forall e :: e in refs ==> e in s.db.refs)
  {
    var s := After(capacity, []);
    AtStart(capacity);
    Next(capacity, [], InsertDrvsCmd(drvs, refs), 0);
    InsertOrder(s, drvs, refs, 0);
    InsertFrame(s, drvs, refs, 0);
    InsertStores(s, drvs, refs, 0);
    OnlyQueriesSpoilMirror(s, InsertDrvsCmd(drvs, refs), 0);
    assert [] + Ids(drvs) == Ids(drvs);
    forall i | 0 <= i < |drvs| ensures Known(s, drvs, drvs[i].id) { }
  }

  lemma WithoutFirst(order: seq<DrvId>)
    requires order != [] && NoDuplicates(order)
    ensures Without(order, order[0]) == order[1..]
  {
  }

  /** Inserting the oldest cached drv again moves it to the end and cuts its edges. */
  lemma ReinsertOldest(s: Service, drv: Drv, now: nat)
    requires s.graph.order != [] && s.graph.order[0] == drv.id
    ensures var t := InsertDrv(s, drv, now);
            && t.graph.order == s.graph.order[1..] + [drv.id] && t.graph.capacity == s.graph.capacity
            && drv.id in t.graph.nodes && t.graph.nodes[drv.id].dependencies == [] && t.db.refs == s.db.refs
            && (forall n :: n in s.db.drvs ==> n in t.db.drvs)
  {
    InOrder(s.graph, drv.id);
    WithoutFirst(s.graph.order);
  }

  /** Inserting an uncached drv into a full cache drops the oldest entry. */
  lemma InsertDropsOldest(s: Service, drv: Drv, now: nat, n: DrvId)
    requires drv.id !in s.graph.nodes && |s.graph.order| == s.graph.capacity
    requires n in s.graph.nodes && n != s.graph.order[0]
    ensures var t := InsertDrv(s, drv, now);
            && t.graph.order == s.graph.order[1..] + [drv.id] && t.graph.capacity == s.graph.capacity
            && n in t.graph.nodes && t.graph.nodes[n] == s.graph.nodes[n] && t.db.refs == s.db.refs
            && (forall k :: k in s.db.drvs ==> k in t.db.drvs)
  {
  }

  lemma PairStoresNoMore(capacity: nat, a: Drv, b: Drv)
    requires 0 < capacity
    ensures forall k :: k in Pair(capacity, a, b).db.drvs <==> k == a.id || k == b.id
  {
    var drvs := [a, b];
    AtStart(capacity);
    PairIsStep(capacity, a, b);
    InsertStores(After(capacity, []), drvs, [(a.id, b.id)], 0);
    assert drvs[0].id == a.id && drvs[1].id == b.id;
  }

  lemma OneIsNew(s: Service, drv: Drv)
    requires drv.id !in s.db.drvs
    ensures NewDrvs(s, [drv], [])
  {
    var drvs := [drv];
    assert drvs[0].id == drv.id;
  }

  lemma InsertNewKeeps(s: Service, drv: Drv, now: nat)
    requires Invariant(s) && drv.id !in s.db.drvs
    ensures Invariant(Step(s, InsertDrvsCmd([drv], []), now)) && drv.id !in s.graph.nodes
  {
    OneIsNew(s, drv);
    StepKeeps(s, InsertDrvsCmd([drv], []), now);
  }

  lemma InsertStoresOne(s: Service, drv: Drv, now: nat, k: DrvId)
    ensures k in Step(s, InsertDrvsCmd([drv], []), now).db.drvs <==> k in s.db.drvs || k == drv.id
  {
    var drvs := [drv];
    InsertStores(s, drvs, [], now);
    assert drvs[0].id == drv.id;
  }

  lemma ThreeDistinct(a: Drv, b: Drv, c: Drv)
    requires a.id != b.id && a.id != c.id && b.id != c.id
    ensures var drvs := [a, b, c]; forall i, j :: 0 <= i < j < |drvs| ==> drvs[i].id != drvs[j].id
  {
  }
}
