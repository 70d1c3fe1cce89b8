/**
 Startup: the graph is rebuilt from the stored drvs and references, and the transitive
 failures are recomputed from the stored permanent failures.
 */
module Recovery {
  import opened Sequences
  import opened Drvs
  import opened Reachability
  import opened Graphs
  import opened GraphOps
  import opened FailureTracking
  import opened BuildGraphs

  /** Transient states fall back to Queued; a used-up first attempt is kept. */
  function Normalise(state: BuildState): BuildState {
    match state
    case Building => Queued
    case Buildable => Queued
    case _ => state
  }

  function Load(g: Graph, rows: seq<Drv>, now: nat): Graph
    decreases |rows|
  {
    if rows == [] then g
    else Load(InsertNode(g, rows[0].(state := Normalise(rows[0].state)), now).graph, rows[1..], now)
  }

  ghost function PropagateAll(g: Graph, failures: seq<DrvId>): Graph
    decreases |failures|
  {
    if failures == [] then g else PropagateAll(PropagateFailure(g, failures[0]), failures[1..])
  }

  /** The recovered graph when the failures are visited in the order `failures`. */
  ghost function Recover(capacity: nat, rows: seq<Drv>, refs: seq<(DrvId, DrvId)>, failures: seq<DrvId>, now: nat): Graph
    requires 0 < capacity
  {
    PropagateAll(AddEdges(Load(Empty(capacity), rows, now), refs), failures)
  }

  /** `failures` visits exactly the failed drvs, once each, in some order. */
  ghost predicate Enumerates(failures: seq<DrvId>, failed: map<DrvId, nat>) {
    NoDuplicates(failures) && forall f :: f in failures <==> f in failed
  }

  method FromDatabase(rows: seq<Drv>, refs: seq<(DrvId, DrvId)>, capacity: nat, now: nat)
    returns (graph: BuildGraph, ghost failures: seq<DrvId>)
    requires 0 < capacity
    ensures fresh(graph) && graph.Valid()
    ensures Enumerates(failures, Load(Empty(capacity), rows, now).failed)
    ensures graph.Model() == Recover(capacity, rows, refs, failures, now)
  {
    graph := new BuildGraph(capacity);
    for i := 0 to |rows|
      invariant fresh(graph) && graph.Valid()
      invariant Load(graph.Model(), rows[i..], now) == Load(Empty(capacity), rows, now)
    {
      assert rows[i..][1..] == rows[i + 1..];
      var _ := graph.InsertNode(rows[i].(state := Normalise(rows[i].state)), now);
    }
    ghost var loaded := graph.Model();
    for i := 0 to |refs|
      invariant fresh(graph) && graph.Valid()
      invariant AddEdges(graph.Model(), refs[i..]) == AddEdges(loaded, refs)
    {
      assert refs[i..][1..] == refs[i + 1..];
      graph.AddEdge(refs[i].0, refs[i].1);
    }
    AddEdgesFrame(loaded, refs);
    failures := PropagateFailures(graph);
  }

  /** Propagates every recorded failure once. */
  method PropagateFailures(graph: BuildGraph) returns (ghost failures: seq<DrvId>)
    requires graph.Valid()
    modifies graph
    ensures graph.Valid() && Enumerates(failures, old(graph.failedDrvs))
    ensures graph.Model() == PropagateAll(old(graph.Model()), failures)
  {
    var todo := graph.failedDrvs.Keys;
    failures := [];
    while todo != {}
      invariant graph.Valid() && graph.Model() == PropagateAll(old(graph.Model()), failures)
      invariant forall f :: f in old(graph.failedDrvs) <==> f in todo || f in failures
      invariant NoDuplicates(failures) && forall f :: f in failures ==> f !in todo
    {
      var f :| f in todo;
      PropagateAllSnoc(old(graph.Model()), failures, f);
      var _ := graph.PropagateFailure(f);
      todo, failures := todo - {f}, failures + [f];
    }
  }

  lemma {:induction false} PropagateAllSnoc(g: Graph, failures: seq<DrvId>, f: DrvId)
    ensures PropagateAll(g, failures + [f]) == PropagateFailure(PropagateAll(g, failures), f)
    decreases |failures|
  {
    if failures == [] {
      assert failures + [f] == [f];
      assert PropagateAll(g, [f]) == PropagateAll(PropagateFailure(g, f), [f][1..]);
    } else {
      assert (failures + [f])[1..] == failures[1..] + [f];
      PropagateAllSnoc(PropagateFailure(g, failures[0]), failures[1..], f);
    }
  }

  // ---------------------------------------------------------------- what is recovered

  /** `p` climbs from a drv to one that depends on it, one stored reference at a time. */
  predicate IsRefPath(refs: seq<(DrvId, DrvId)>, p: seq<DrvId>) {
    p != [] && forall i :: 0 < i < |p| ==> (p[i], p[i - 1]) in refs
  }

  /** Stored references make `d` depend on `f`, directly or not. */
  ghost predicate DependsOn(refs: seq<(DrvId, DrvId)>, d: DrvId, f: DrvId) {
    exists p :: IsRefPath(refs, p) && p[0] == f && p[|p| - 1] == d
  }

  /** Distinct rows that fit the cache, and references between stored drvs only. */
  ghost predicate FitsCache(rows: seq<Drv>, refs: seq<(DrvId, DrvId)>, capacity: nat) {
    && 0 < capacity && |rows| <= capacity
    && (forall i, j :: 0 <= i < j < |rows| ==> rows[i].id != rows[j].id)
    && (forall e :: e in refs ==> Stored(rows, e.0) && Stored(rows, e.1))
  }

  predicate Stored(rows: seq<Drv>, id: DrvId) {
    exists i :: 0 <= i < |rows| && rows[i].id == id
  }

  predicate StoredFailed(rows: seq<Drv>, id: DrvId) {
    exists i :: 0 <= i < |rows| && rows[i].id == id && rows[i].state == Completed(Failure)
  }

  predicate LoadedAs(nodes: Nodes, drv: Drv) {
    drv.id in nodes && nodes[drv.id] == FromDrv(drv.(state := Normalise(drv.state)))
  }

  /** Below capacity every row ends up cached with its normalised state, and nothing else changes. */
  lemma {:induction false} LoadEffect(g: Graph, rows: seq<Drv>, now: nat)
    requires Fresh(g, rows)
    ensures var r := Load(g, rows, now);
            && (forall n :: n in r.nodes <==> n in g.nodes || Stored(rows, n))
            && (forall n :: n in g.nodes ==> r.nodes[n] == g.nodes[n])
            && (forall i :: 0 <= i < |rows| ==> LoadedAs(r.nodes, rows[i]))
    decreases |rows|
  {
    if rows != [] {
      var h := InsertNode(g, rows[0].(state := Normalise(rows[0].state)), now).graph;
      assert Fresh(h, rows[1..]);
      LoadEffect(h, rows[1..], now);
      StoredCons(rows);
      var r := Load(g, rows, now);
      assert LoadedAs(r.nodes, rows[0]);
      forall i | 0 < i < |rows| ensures LoadedAs(r.nodes, rows[i]) {
        assert LoadedAs(r.nodes, rows[1..][i - 1]);
      }
    }
  }

  /** The stored failures are recorded, and nothing else. */
  lemma {:induction false} LoadRecords(g: Graph, rows: seq<Drv>, now: nat)
    ensures forall f :: f in Load(g, rows, now).failed <==> f in g.failed || StoredFailed(rows, f)
    decreases |rows|
  {
    if rows != [] {
      LoadRecords(InsertNode(g, rows[0].(state := Normalise(rows[0].state)), now).graph, rows[1..], now);
      StoredCons(rows);
    }
  }

  lemma StoredCons(rows: seq<Drv>)
    requires rows != []
    ensures forall n :: Stored(rows, n) <==> n == rows[0].id || Stored(rows[1..], n)
    ensures forall n :: StoredFailed(rows, n) <==> (n == rows[0].id && rows[0].state == FAILED) || StoredFailed(rows[1..], n)
  {
    forall n, i | 0 <= i < |rows| && rows[i].id == n ensures n == rows[0].id || Stored(rows[1..], n) {
      if i > 0 { assert rows[1..][i - 1] == rows[i]; }
    }
    forall n, i | 0 <= i < |rows| && rows[i].id == n && rows[i].state == FAILED
      ensures (n == rows[0].id && rows[0].state == FAILED) || StoredFailed(rows[1..], n)
    {
      if i > 0 { assert rows[1..][i - 1] == rows[i]; }
    }
    forall n, i | 0 <= i < |rows[1..]| && rows[1..][i].id == n
      ensures Stored(rows, n) && (rows[1..][i].state == FAILED ==> StoredFailed(rows, n))
    {
      assert rows[i + 1] == rows[1..][i];
    }
  }

  /** Which of the visited failures a drv depends on. */
  ghost function Hits(nodes: Nodes, failures: seq<DrvId>, n: DrvId): set<DrvId> {
    set f | f in failures && n in TransitiveDependents(nodes, f)
  }

  ghost function Hit(g: Graph, f: DrvId, n: DrvId): set<DrvId> {
    if n in TransitiveDependents(g.nodes, f) then {f} else {}
  }

  /** `hits` join the blockers, and any hit at all sets the state. */
  predicate Struck(before: Node, after: Node, hits: set<DrvId>) {
    && after.id == before.id && after.meta == before.meta
    && after.blockers == before.blockers + hits
    && after.state == if hits == {} then before.state else TransitiveFailure
  }

  lemma StruckTwice(a: Node, b: Node, c: Node, first: set<DrvId>, rest: set<DrvId>)
    requires Struck(a, b, first) && Struck(b, c, rest)
    ensures Struck(a, c, first + rest)
  {
    assert first + rest == {} <==> first == {} && rest == {};
  }

  lemma PropagateStrikes(g: Graph, f: DrvId, n: DrvId)
    requires n in g.nodes
    ensures var h := PropagateFailure(g, f); n in h.nodes && Struck(g.nodes[n], h.nodes[n], Hit(g, f, n))
  {
  }

  lemma HitsCons(g: Graph, h: Graph, failures: seq<DrvId>, n: DrvId)
    requires failures != [] && h == PropagateFailure(g, failures[0])
    ensures Hits(g.nodes, failures, n)
         == Hit(g, failures[0], n) + Hits(h.nodes, failures[1..], n)
  {
    forall f ensures TransitiveDependents(h.nodes, f) == TransitiveDependents(g.nodes, f) {
      SameEdgesSameReach(g.nodes, h.nodes, f);
    }
  }

  /** Propagating a list of failures adds, node by node, exactly the failures that reach it. */
  lemma {:induction false} PropagateAllEffect(g: Graph, failures: seq<DrvId>, n: DrvId)
    requires n in g.nodes
    ensures var r := PropagateAll(g, failures); n in r.nodes && Struck(g.nodes[n], r.nodes[n], Hits(g.nodes, failures, n))
    decreases |failures|
  {
    var r := PropagateAll(g, failures);
    if failures != [] {
      var h := PropagateFailure(g, failures[0]);
      PropagateStrikes(g, failures[0], n);
      HitsCons(g, h, failures, n);
      PropagateAllEffect(h, failures[1..], n);
      StruckTwice(g.nodes[n], h.nodes[n], r.nodes[n], Hit(g, failures[0], n), Hits(h.nodes, failures[1..], n));
    }
  }

  /** In the recovered adjacency, reachability is dependency through stored references. */
  lemma ReachesIsDependsOn(nodes: Nodes, refs: seq<(DrvId, DrvId)>, f: DrvId, d: DrvId)
    requires forall a, b :: Edge(nodes, a, b) <==> (b, a) in refs
    ensures Reaches(nodes, f, d) <==> DependsOn(refs, d, f)
  {
    forall p ensures IsPath(nodes, p) <==> IsRefPath(refs, p) {
      if IsRefPath(refs, p) {
        forall i | 0 < i < |p| ensures Edge(nodes, p[i - 1], p[i]) { assert (p[i], p[i - 1]) in refs; }
      }
      if IsPath(nodes, p) {
        forall i | 0 < i < |p| ensures (p[i], p[i - 1]) in refs { assert Edge(nodes, p[i - 1], p[i]); }
      }
    }
    assert Reaches(nodes, f, d) ==> DependsOn(refs, d, f) by {
      if Reaches(nodes, f, d) {
        var p :| IsPath(nodes, p) && p[0] == f && p[|p| - 1] == d;
        assert IsRefPath(refs, p);
      }
    }
    assert DependsOn(refs, d, f) ==> Reaches(nodes, f, d) by {
      if DependsOn(refs, d, f) {
        var p :| IsRefPath(refs, p) && p[0] == f && p[|p| - 1] == d;
        assert IsPath(nodes, p);
      }
    }
  }

  ghost function Linked(capacity: nat, rows: seq<Drv>, refs: seq<(DrvId, DrvId)>, now: nat): Graph
    requires 0 < capacity
  {
    AddEdges(Load(Empty(capacity), rows, now), refs)
  }

  /** Before the failures are propagated: the dependents are the stored referrers. */
  lemma LinkedEdges(capacity: nat, rows: seq<Drv>, refs: seq<(DrvId, DrvId)>, now: nat)
    requires FitsCache(rows, refs, capacity)
    ensures forall a, b :: Edge(Linked(capacity, rows, refs, now).nodes, a, b) <==> (b, a) in refs
  {
    LoadEffect(Empty(capacity), rows, now);
    var loaded, linked := Load(Empty(capacity), rows, now), Linked(capacity, rows, refs, now);
    AddEdgesEffect(loaded, refs);
    forall a, b ensures Edge(linked.nodes, a, b) <==> (b, a) in refs {
      if a in loaded.nodes {
        var i :| 0 <= i < |rows| && rows[i].id == a;
        assert LoadedAs(loaded.nodes, rows[i]);
      }
    }
  }

  /** Before the failures are propagated: every row is cached, normalised and unblocked. */
  lemma LinkedRow(capacity: nat, rows: seq<Drv>, refs: seq<(DrvId, DrvId)>, now: nat, i: nat)
    requires FitsCache(rows, refs, capacity) && i < |rows|
    ensures var nodes := Linked(capacity, rows, refs, now).nodes;
            && rows[i].id in nodes
            && nodes[rows[i].id].id == rows[i].id && nodes[rows[i].id].meta == rows[i].meta
            && nodes[rows[i].id].state == Normalise(rows[i].state) && nodes[rows[i].id].blockers == {}
  {
    LoadEffect(Empty(capacity), rows, now);
    var loaded := Load(Empty(capacity), rows, now);
    AddEdgesEffect(loaded, refs);
    assert LoadedAs(loaded.nodes, rows[i]);
    assert SameButEdges(loaded.nodes[rows[i].id], Linked(capacity, rows, refs, now).nodes[rows[i].id]);
  }

  /** Which of the visited failures reach a stored drv, in terms of the stored rows. */
  lemma HitsAreStored(capacity: nat, rows: seq<Drv>, refs: seq<(DrvId, DrvId)>, failures: seq<DrvId>, now: nat, d: DrvId, f: DrvId)
    requires FitsCache(rows, refs, capacity) && Enumerates(failures, Load(Empty(capacity), rows, now).failed)
    ensures f in Hits(Linked(capacity, rows, refs, now).nodes, failures, d)
       <==> StoredFailed(rows, f) && f != d && DependsOn(refs, d, f)
  {
    LinkedEdges(capacity, rows, refs, now);
    LoadRecords(Empty(capacity), rows, now);
    ReachesIsDependsOn(Linked(capacity, rows, refs, now).nodes, refs, f, d);
  }

  /**
   Recovery is confluent: in whatever order the failures are visited, a drv ends up blocked by
   exactly the stored failures other than itself that it depends on through the stored
   references, and it keeps its normalised stored state unless there is one.
   */
  lemma RecoveryIsConfluent(capacity: nat, rows: seq<Drv>, refs: seq<(DrvId, DrvId)>, failures: seq<DrvId>, now: nat, i: nat)
    requires FitsCache(rows, refs, capacity) && i < |rows|
    requires Enumerates(failures, Load(Empty(capacity), rows, now).failed)
    ensures var d := rows[i].id;
            var r := Recover(capacity, rows, refs, failures, now);
            && d in r.nodes
            && (forall f :: f in r.nodes[d].blockers <==> StoredFailed(rows, f) && f != d && DependsOn(refs, d, f))
            && r.nodes[d].id == d && r.nodes[d].meta == rows[i].meta
            && r.nodes[d].state == (if r.nodes[d].blockers != {} then TransitiveFailure
                                    else if rows[i].state == Building || rows[i].state == Buildable then Queued
                                    else rows[i].state)
  {
    var linked, d := Linked(capacity, rows, refs, now), rows[i].id;
    LinkedRow(capacity, rows, refs, now, i);
    PropagateAllEffect(linked, failures, d);
    forall f ensures f in Hits(linked.nodes, failures, d) <==> StoredFailed(rows, f) && f != d && DependsOn(refs, d, f) {
      HitsAreStored(capacity, rows, refs, failures, now, d, f);
    }
  }

  // ---------------------------------------------------------------- as a run of operations

  function Normalised(rows: seq<Drv>): seq<Drv> {
    seq(|rows|, i requires 0 <= i < |rows| => rows[i].(state := Normalise(rows[i].state)))
  }

  /** What startup does to the empty graph. */
  function StartupOps(rows: seq<Drv>, refs: seq<(DrvId, DrvId)>, failures: seq<DrvId>, now: nat): seq<Op> {
    Inserts(Normalised(rows), now) + Links(refs) + Propagations(failures)
  }

  lemma {:induction false} LoadIsInserts(g: Graph, rows: seq<Drv>, now: nat)
    ensures RunOps(g, Inserts(Normalised(rows), now)) == Load(g, rows, now)
    decreases |rows|
  {
    if rows != [] {
      assert Normalised(rows)[1..] == Normalised(rows[1..]);
      assert Inserts(Normalised(rows), now)[1..] == Inserts(Normalised(rows[1..]), now);
      LoadIsInserts(InsertNode(g, Normalised(rows)[0], now).graph, rows[1..], now);
    }
  }

  lemma {:induction false} PropagateAllIsOps(g: Graph, failures: seq<DrvId>)
    ensures RunOps(g, Propagations(failures)) == PropagateAll(g, failures)
    decreases |failures|
  {
    if failures != [] {
      assert Propagations(failures)[1..] == Propagations(failures[1..]);
      PropagateAllIsOps(PropagateFailure(g, failures[0]), failures[1..]);
    }
  }

  lemma RecoverIsOps(capacity: nat, rows: seq<Drv>, refs: seq<(DrvId, DrvId)>, failures: seq<DrvId>, now: nat)
    requires 0 < capacity
    ensures RunOps(Empty(capacity), StartupOps(rows, refs, failures, now)) == Recover(capacity, rows, refs, failures, now)
  {
    var inserts, links, propagations := Inserts(Normalised(rows), now), Links(refs), Propagations(failures);
    RunOpsConcat(Empty(capacity), inserts + links, propagations);
    RunOpsConcat(Empty(capacity), inserts, links);
    LoadIsInserts(Empty(capacity), rows, now);
    LinksAddEdges(Load(Empty(capacity), rows, now), refs);
    PropagateAllIsOps(Linked(capacity, rows, refs, now), failures);
  }

  /** Startup forgets nothing and sets no state directly. */
  lemma StartupOpsAre(rows: seq<Drv>, refs: seq<(DrvId, DrvId)>, failures: seq<DrvId>, now: nat, g: Graph)
    ensures Along(Remembering, g, StartupOps(rows, refs, failures, now))
    ensures Along(Sparing, g, StartupOps(rows, refs, failures, now))
  {
    AlongAll(Remembering, g, StartupOps(rows, refs, failures, now));
    AlongAll(Sparing, g, StartupOps(rows, refs, failures, now));
  }

  lemma LoadAllowed(capacity: nat, rows: seq<Drv>, now: nat)
    requires 0 < capacity && Fresh(Empty(capacity), rows)
    ensures Along(Allowed, Empty(capacity), Inserts(Normalised(rows), now))
  {
    InsertsAllowed(Empty(capacity), Normalised(rows), now);
  }

  /** When the stored drvs fit, startup stays below capacity. */
  lemma StartupAllowed(capacity: nat, rows: seq<Drv>, refs: seq<(DrvId, DrvId)>, failures: seq<DrvId>, now: nat)
    requires FitsCache(rows, refs, capacity)
    ensures Along(Allowed, Empty(capacity), StartupOps(rows, refs, failures, now))
  {
    var empty, inserts, links := Empty(capacity), Inserts(Normalised(rows), now), Links(refs);
    assert Along(Allowed, empty, inserts) by { LoadAllowed(capacity, rows, now); }
    assert Along(Allowed, RunOps(empty, inserts), links) by {
      LoadEffect(empty, rows, now);
      LoadIsInserts(empty, rows, now);
      LinksAllowed(Load(empty, rows, now), refs);
    }
    AlongConcat(Allowed, empty, inserts, links);
    AlongAll(Allowed, RunOps(empty, inserts + links), Propagations(failures));
    AlongConcat(Allowed, empty, inserts + links, Propagations(failures));
  }

  /** The recovered graph starts with exact failure tracking. */
  lemma RecoveryEstablishesTracking(capacity: nat, rows: seq<Drv>, refs: seq<(DrvId, DrvId)>, failures: seq<DrvId>, now: nat)
    requires FitsCache(rows, refs, capacity)
    ensures Tracking(Recover(capacity, rows, refs, failures, now))
    ensures Inverse(Recover(capacity, rows, refs, failures, now))
  {
    StartupAllowed(capacity, rows, refs, failures, now);
    StartupOpsAre(rows, refs, failures, now, Empty(capacity));
    RunKeepsInverse(Empty(capacity), StartupOps(rows, refs, failures, now));
    RecoverIsOps(capacity, rows, refs, failures, now);
  }
}
