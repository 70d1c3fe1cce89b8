/**
 The service object: it owns the graph and keeps the shared view, the reference counts and
 the access times in step with it. Every method is proved against the step function of
 module `Services`.
 */
module GraphServices {
  import opened Wrappers
  import opened Sequences
  import opened Drvs
  import opened Reachability
  import opened Graphs
  import opened BuildGraphs
  import opened Services
  import opened Mirror
  import opened Recovery
  import opened Startup

  class GraphService {
    const graph: BuildGraph
    var view: View
    var refCounts: Counts
    var lastAccessed: map<DrvId, nat>
    var db: Database

    ghost predicate Valid()
      reads this, graph
    {
      graph.Valid()
    }

    ghost function Model(): Service
      requires Valid()
      reads this, graph
    {
      Service(graph.Model(), view, refCounts, lastAccessed, db)
    }

    constructor (graph: BuildGraph, view: View, refCounts: Counts, lastAccessed: map<DrvId, nat>, db: Database)
      requires graph.Valid()
      ensures this.graph == graph && Valid()
      ensures Model() == Service(graph.Model(), view, refCounts, lastAccessed, db)
    {
      this.graph, this.view, this.refCounts, this.lastAccessed, this.db := graph, view, refCounts, lastAccessed, db;
    }

    // -------------------------------------------------------------- the cache

    method DropReferences(ids: seq<DrvId>)
      requires Valid()
      modifies this`refCounts
      ensures Valid() && Model() == old(Model()).(refCounts := DropAll(old(refCounts), graph.nodes, ids))
    {
      for i := 0 to |ids|
        invariant DropAll(refCounts, graph.nodes, ids[i..]) == DropAll(old(refCounts), graph.nodes, ids)
      {
        assert ids[i..][1..] == ids[i + 1..];
        var id := ids[i];
        ghost var before := refCounts;
        if id in refCounts {
          var count := if refCounts[id] == 0 then 0 else refCounts[id] - 1;
          refCounts := refCounts[id := count];
          if count == 0 && id !in graph.nodes {
            refCounts := refCounts - {id};
          }
        }
        assert refCounts == Drop(before, graph.nodes, id);
      }
    }

    method AdmitNode(drv: Drv, now: nat)
      requires Valid()
      modifies this, graph
      ensures Valid() && Model() == Admit(old(Model()), drv, now)
    {
      var evicted := graph.InsertNode(drv, now);
      match evicted {
        case None =>
        case Some((id, node)) =>
          DropReferences(node.dependencies);
          lastAccessed := lastAccessed - {id};
          refCounts := refCounts - {id};
          view := view - {id};
      }
      lastAccessed := lastAccessed[drv.id := now];
    }

    /** Links stored rows back into the graph, counting each one. */
    method Relink(edges: Refs)
      requires Valid()
      modifies this`refCounts, graph
      ensures Valid()
      ensures Model() == old(Model()).(graph := AddEdges(old(graph.Model()), edges), refCounts := BumpAll(old(refCounts), edges))
    {
      for i := 0 to |edges|
        invariant Valid() && view == old(view) && lastAccessed == old(lastAccessed) && db == old(db)
        invariant AddEdges(graph.Model(), edges[i..]) == AddEdges(old(graph.Model()), edges)
        invariant BumpAll(refCounts, edges[i..]) == BumpAll(old(refCounts), edges)
      {
        assert edges[i..][1..] == edges[i + 1..];
        graph.AddEdge(edges[i].0, edges[i].1);
        refCounts := refCounts[edges[i].1 := (if edges[i].1 in refCounts then refCounts[edges[i].1] else 0) + 1];
      }
    }

    /** Answers whether a reload took place; a drv that is neither cached nor stored is an error. */
    method EnsureLoaded(id: DrvId, now: nat) returns (reloaded: Result<bool>)
      requires Valid()
      modifies this, graph
      ensures Valid() && Model() == Services.EnsureLoaded(old(Model()), id, now)
      ensures reloaded == if id in old(graph.nodes) then Ok(false) else if id in old(db.drvs) then Ok(true) else Err
    {
      if id in graph.nodes { return Ok(false); }
      if id !in db.drvs { return Err; }
      var up, down := RefsFrom(db.refs, id), RefsTo(db.refs, id);
      AdmitNode(StoredDrv(db, id), now);
      AddEdgesEffect(graph.Model(), up);
      AddEdgesEffect(AddEdges(graph.Model(), up), down);
      Relink(up);
      Relink(down);
      view := view[id := Project(graph.nodes[id])];
      return Ok(true);
    }

    method EnsureAllLoaded(ids: seq<DrvId>, now: nat)
      requires Valid()
      modifies this, graph
      ensures Valid() && Model() == Services.EnsureAllLoaded(old(Model()), ids, now)
    {
      for i := 0 to |ids|
        invariant Valid()
        invariant Services.EnsureAllLoaded(Model(), ids[i..], now) == Services.EnsureAllLoaded(old(Model()), ids, now)
      {
        assert ids[i..][1..] == ids[i + 1..];
        var _ := EnsureLoaded(ids[i], now);
      }
    }

    // -------------------------------------------------------------- commands

    method InsertNodes(drvs: seq<Drv>, now: nat)
      requires Valid()
      modifies this, graph
      ensures Valid() && Model() == InsertEach(old(Model()), drvs, now)
    {
      for i := 0 to |drvs|
        invariant Valid()
        invariant InsertEach(Model(), drvs[i..], now) == InsertEach(old(Model()), drvs, now)
      {
        assert drvs[i..][1..] == drvs[i + 1..];
        db := Store(db, drvs[i]);
        AdmitNode(drvs[i], now);
        view := view[drvs[i].id := Project(graph.nodes[drvs[i].id])];
      }
    }

    method InsertEdges(refs: Refs)
      requires Valid()
      modifies this, graph
      ensures Valid() && Model() == LinkEach(old(Model()), refs)
    {
      for i := 0 to |refs|
        invariant Valid()
        invariant LinkEach(Model(), refs[i..]) == LinkEach(old(Model()), refs)
      {
        assert refs[i..][1..] == refs[i + 1..];
        var (referrer, reference) := refs[i];
        db := StoreRef(db, referrer, reference);
        graph.AddEdge(referrer, reference);
        refCounts := refCounts[reference := (if reference in refCounts then refCounts[reference] else 0) + 1];
        if referrer in graph.nodes && referrer in view {
          view := view[referrer := view[referrer].(dependencies := graph.nodes[referrer].dependencies)];
        }
      }
    }

    method InsertDrvs(drvs: seq<Drv>, refs: Refs, now: nat)
      requires Valid()
      modifies this, graph
      ensures Valid() && Model() == LinkEach(InsertEach(old(Model()), drvs, now), refs)
    {
      InsertNodes(drvs, now);
      InsertEdges(refs);
    }

    method UpdateState(id: DrvId, state: BuildState, now: nat)
      requires Valid()
      modifies this, graph
      ensures Valid() && Model() == Services.UpdateState(old(Model()), id, state, now)
    {
      graph.UpdateState(id, state, now);
      if id in view {
        view := view[id := view[id].(state := state)];
      }
      assert view == SetViewState(old(view), {id}, state);
      db := SetStoredState(db, {id}, state);
    }

    /** Writes one state to the entries of `ids`, one after the other. */
    method WriteStates(ids: set<DrvId>, state: BuildState)
      modifies this`view
      ensures view == SetViewState(old(view), ids, state)
    {
      var todo := ids;
      assert view == SetViewState(old(view), ids - todo, state);
      while todo != {}
        invariant todo <= ids && view == SetViewState(old(view), ids - todo, state)
      {
        var id :| id in todo;
        if id in view {
          view := view[id := view[id].(state := state)];
        }
        todo := todo - {id};
      }
      assert ids - todo == ids;
    }

    method PropagateFailure(failed: DrvId) returns (blocked: set<DrvId>)
      requires Valid()
      modifies this, graph
      ensures Valid() && Model() == Services.PropagateFailure(old(Model()), failed)
      ensures blocked == TransitiveDependents(old(graph.nodes), failed)
    {
      blocked := graph.PropagateFailure(failed);
      WriteStates(blocked, TransitiveFailure);
      db := SetStoredState(db, blocked, TransitiveFailure);
    }

    method ClearFailure(failed: DrvId) returns (unblocked: set<DrvId>)
      requires Valid()
      modifies this, graph
      ensures Valid() && Model() == Services.ClearFailure(old(Model()), failed)
      ensures unblocked == Graphs.Unblocked(old(graph.Model()), failed)
    {
      unblocked := graph.ClearFailure(failed);
      WriteStates(unblocked, Queued);
    }

    method Prune(cutoff: nat)
      requires Valid()
      modifies this, graph
      ensures Valid() && Model() == Services.Prune(old(Model()), cutoff)
    {
      lastAccessed := map n | n in lastAccessed && n in graph.nodes :: lastAccessed[n];
      refCounts := map n | n in refCounts && n in graph.nodes :: refCounts[n];
      var _ := graph.EvictStaleFailures(cutoff);
    }

    method HandleCommand(cmd: Command, now: nat)
      requires Valid()
      modifies this, graph
      ensures Valid() && Model() == Step(old(Model()), cmd, now)
    {
      match cmd {
        case UpdateStateCmd(id, state) => UpdateState(id, state, now);
        case InsertDrvsCmd(drvs, refs) => InsertDrvs(drvs, refs, now);
        case PropagateFailureCmd(failed) => var _ := PropagateFailure(failed);
        case ClearFailureCmd(failed) => var _ := ClearFailure(failed);
        case QueryCmd(ids) => EnsureAllLoaded(ids, now);
        case PruneCmd(cutoff) => Prune(cutoff);
      }
    }

    /** A whole run of commands that insert new drvs only ends in a state with the invariant. */
    method RunCommands(cmds: seq<(Command, nat)>)
      requires Valid() && Invariant(Model()) && FreshRun(Model(), cmds)
      modifies this, graph
      ensures Valid() && Model() == Run(old(Model()), cmds) && Invariant(Model())
    {
      for i := 0 to |cmds|
        invariant Valid() && Invariant(Model()) && FreshRun(Model(), cmds[i..])
        invariant Run(Model(), cmds[i..]) == Run(old(Model()), cmds)
      {
        assert cmds[i..][1..] == cmds[i + 1..];
        StepKeeps(Model(), cmds[i].0, cmds[i].1);
        HandleCommand(cmds[i].0, cmds[i].1);
      }
    }
  }

  // ---------------------------------------------------------------- startup

  method New(db: Database, rows: seq<Drv>, capacity: nat, now: nat)
    returns (service: GraphService, ghost failures: seq<DrvId>)
    requires 0 < capacity && WellFormed(db, rows)
    ensures fresh(service) && fresh(service.graph) && service.Valid()
    ensures Enumerates(failures, Load(Empty(capacity), rows, now).failed)
    ensures service.Model() == Start(db, capacity, rows, failures, now)
    ensures Invariant(service.Model())
  {
    var graph, order := FromDatabase(rows, db.refs, capacity, now);
    failures := order;
    StartEstablishes(db, capacity, rows, failures, now);
    AdjacentIsDistinct(Start(db, capacity, rows, failures, now));
    var view, lastAccessed, refCounts := Summarise(graph.nodes, now);
    service := new GraphService(graph, view, refCounts, lastAccessed, db);
  }

  predicate DistinctDependencies(nodes: Nodes) {
    forall n :: n in nodes ==> NoDuplicates(nodes[n].dependencies)
  }

  /** The tables that startup derives from the cached nodes, one node at a time. */
  method Summarise(nodes: Nodes, now: nat) returns (view: View, lastAccessed: map<DrvId, nat>, refCounts: Counts)
    requires DistinctDependencies(nodes)
    ensures view == Projection(nodes) && refCounts == InitialCounts(nodes)
    ensures lastAccessed == Stamp(nodes, now)
  {
    view, lastAccessed, refCounts := map[], map[], map[];
    var todo := nodes.Keys;
    assert nodes - todo == map[];
    while todo != {}
      invariant todo <= nodes.Keys
      invariant view == Projection(nodes - todo) && lastAccessed == Stamp(nodes - todo, now)
      invariant refCounts == InitialCounts(nodes - todo)
    {
      var id :| id in todo;
      SummaryStep(nodes, todo, id, now);
      refCounts := CountDependencies(refCounts, nodes[id].dependencies);
      view, lastAccessed := view[id := Project(nodes[id])], lastAccessed[id := now];
      todo := todo - {id};
    }
    assert nodes - todo == nodes;
  }

  lemma SummaryStep(nodes: Nodes, todo: set<DrvId>, id: DrvId, now: nat)
    requires id in todo && todo <= nodes.Keys && NoDuplicates(nodes[id].dependencies)
    ensures var seen, more := nodes - todo, nodes - (todo - {id});
            && Projection(more) == Projection(seen)[id := Project(nodes[id])]
            && Stamp(more, now) == Stamp(seen, now)[id := now]
            && InitialCounts(more) == BumpEach(InitialCounts(seen), nodes[id].dependencies)
  {
    var seen, more := nodes - todo, nodes - (todo - {id});
    assert more == seen[id := nodes[id]];
    InitialCountsStep(seen, id, nodes[id]);
    TablesStep(seen, id, nodes[id], now);
  }

  lemma TablesStep(nodes: Nodes, id: DrvId, node: Node, now: nat)
    ensures Projection(nodes[id := node]) == Projection(nodes)[id := Project(node)]
    ensures Stamp(nodes[id := node], now) == Stamp(nodes, now)[id := now]
  {
  }

  function BumpEach(counts: Counts, ids: seq<DrvId>): Counts
    decreases |ids|
  {
    if ids == [] then counts else BumpEach(Bump(counts, ids[0]), ids[1..])
  }

  method CountDependencies(counts: Counts, ids: seq<DrvId>) returns (r: Counts)
    ensures r == BumpEach(counts, ids)
  {
    r := counts;
    for i := 0 to |ids|
      invariant BumpEach(r, ids[i..]) == BumpEach(counts, ids)
    {
      assert ids[i..][1..] == ids[i + 1..];
      r := r[ids[i] := (if ids[i] in r then r[ids[i]] else 0) + 1];
    }
  }

  lemma {:induction false} BumpEachCounts(counts: Counts, ids: seq<DrvId>, x: DrvId)
    requires NoDuplicates(ids)
    ensures x in BumpEach(counts, ids) <==> x in counts || x in ids
    ensures Count(BumpEach(counts, ids), x) == Count(counts, x) + if x in ids then 1 else 0
    decreases |ids|
  {
    if ids != [] {
      assert ids == [ids[0]] + ids[1..];
      BumpEachCounts(Bump(counts, ids[0]), ids[1..], x);
    }
  }

  lemma ReferrersAfterAdding(nodes: Nodes, id: DrvId, node: Node, x: DrvId)
    requires id !in nodes
    ensures |Referrers(nodes[id := node], x)| == |Referrers(nodes, x)| + if x in node.dependencies then 1 else 0
  {
    var before, after := Referrers(nodes, x), Referrers(nodes[id := node], x);
    assert after == if x in node.dependencies then before + {id} else before;
  }

  /** Counting one more node's dependencies, seen from one drv. */
  lemma InitialCountsStepAt(nodes: Nodes, id: DrvId, node: Node, x: DrvId)
    requires id !in nodes && NoDuplicates(node.dependencies)
    ensures var l, r := InitialCounts(nodes[id := node]), BumpEach(InitialCounts(nodes), node.dependencies);
            (x in l <==> x in r) && Count(l, x) == Count(r, x)
  {
    BumpEachCounts(InitialCounts(nodes), node.dependencies, x);
    InitialCountsAt(nodes, x);
    InitialCountsAt(nodes[id := node], x);
    ReferrersAfterAdding(nodes, id, node, x);
  }

  lemma SameCounts(l: Counts, r: Counts)
    requires forall x :: (x in l <==> x in r) && Count(l, x) == Count(r, x)
    ensures l == r
  {
    forall x | x in l ensures x in r && l[x] == r[x] { assert Count(l, x) == Count(r, x); }
  }

  /** Counting one more node's dependencies gives the counts of the larger set of nodes. */
  lemma InitialCountsStep(nodes: Nodes, id: DrvId, node: Node)
    requires id !in nodes && NoDuplicates(node.dependencies)
    ensures InitialCounts(nodes[id := node]) == BumpEach(InitialCounts(nodes), node.dependencies)
  {
    var l, r := InitialCounts(nodes[id := node]), BumpEach(InitialCounts(nodes), node.dependencies);
    forall x ensures (x in l <==> x in r) && Count(l, x) == Count(r, x) { InitialCountsStepAt(nodes, id, node, x); }
    SameCounts(l, r);
  }

  lemma InitialCountsAt(nodes: Nodes, x: DrvId)
    ensures Count(InitialCounts(nodes), x) == |Referrers(nodes, x)|
    ensures x in InitialCounts(nodes) <==> Referrers(nodes, x) != {}
  {
    if x !in InitialCounts(nodes) {
      assert forall n :: n in nodes ==> x !in nodes[n].dependencies;
      assert Referrers(nodes, x) == {};
    } else {
      var n :| n in nodes && x in nodes[n].dependencies;
      assert n in Referrers(nodes, x);
    }
  }
}
