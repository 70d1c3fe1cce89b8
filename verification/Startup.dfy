/**
 The service right after startup. The stored drvs may exceed the cache: loading then
 already evicts, and the references are linked among whatever stayed cached.
 */
module Startup {
  import opened Drvs
  import opened Reachability
  import opened Graphs
  import opened Services
  import opened Mirror
  import opened Recovery

  /** How often each listed dependency is listed by the cached nodes. */
  function InitialCounts(nodes: Nodes): Counts {
    map x | x in (set n, d | n in nodes && d in nodes[n].dependencies :: d) :: |Referrers(nodes, x)|
  }

  /** Every cached drv counts as accessed at startup. */
  function Stamp(nodes: Nodes, now: nat): map<DrvId, nat> {
    map n | n in nodes :: now
  }

  ghost function Start(db: Database, capacity: nat, rows: seq<Drv>, failures: seq<DrvId>, now: nat): Service
    requires 0 < capacity
  {
    var g := Recover(capacity, rows, db.refs, failures, now);
    Service(g, Projection(g.nodes), InitialCounts(g.nodes), Stamp(g.nodes, now), db)
  }

  /** References are between stored drvs, and the loaded rows are stored drvs. */
  ghost predicate WellFormed(db: Database, rows: seq<Drv>) {
    && (forall e :: e in db.refs ==> e.0 in db.drvs && e.1 in db.drvs)
    && (forall i :: 0 <= i < |rows| ==> rows[i].id in db.drvs)
  }

  /** Before the edges are linked, every cached node is a loaded row without edges. */
  ghost predicate Bare(nodes: Nodes, db: Database) {
    forall n :: n in nodes ==> n in db.drvs && nodes[n].dependencies == [] && nodes[n].dependents == []
  }

  lemma {:induction false} LoadIsBare(g: Graph, rows: seq<Drv>, db: Database, now: nat)
    requires WellFormed(db, rows) && Bare(g.nodes, db)
    ensures Bare(Load(g, rows, now).nodes, db)
    decreases |rows|
  {
    if rows != [] {
      var h := InsertNode(g, rows[0].(state := Normalise(rows[0].state)), now).graph;
      assert Bare(h.nodes, db);
      LoadIsBare(h, rows[1..], db, now);
    }
  }

  /** Propagation leaves the adjacency lists alone. */
  lemma {:induction false} PropagateAllKeepsEdges(g: Graph, failures: seq<DrvId>)
    ensures var r := PropagateAll(g, failures);
            && r.nodes.Keys == g.nodes.Keys
            && forall n :: n in g.nodes ==>
                 && r.nodes[n].dependencies == g.nodes[n].dependencies
                 && r.nodes[n].dependents == g.nodes[n].dependents
    decreases |failures|
  {
    if failures != [] {
      PropagateAllKeepsEdges(Graphs.PropagateFailure(g, failures[0]), failures[1..]);
    }
  }

  /** Startup establishes the invariant of every run, whether or not the cache overflows. */
  lemma StartEstablishes(db: Database, capacity: nat, rows: seq<Drv>, failures: seq<DrvId>, now: nat)
    requires 0 < capacity && WellFormed(db, rows)
    ensures Invariant(Start(db, capacity, rows, failures, now))
  {
    var s := Start(db, capacity, rows, failures, now);
    var loaded := Load(Empty(capacity), rows, now);
    var linked := AddEdges(loaded, db.refs);
    LoadIsBare(Empty(capacity), rows, db, now);
    AddEdgesEffect(loaded, db.refs);
    PropagateAllKeepsEdges(linked, failures);
    forall a | a in s.graph.nodes ensures AdjacentAt(s.graph.nodes, s.db.refs, a) {
      assert loaded.nodes[a].dependencies == [] && loaded.nodes[a].dependents == [];
    }
    forall x | x in s.graph.nodes ensures CoveredAt(s, x) {
      if x !in s.refCounts { UnlistedIsCovered(s, x); }
    }
    CoveredIsEverywhere(s);
  }

  /** From startup on, over every run that inserts new drvs only. */
  lemma EveryRunKeepsTheInvariant(db: Database, capacity: nat, rows: seq<Drv>, failures: seq<DrvId>, now: nat, cmds: seq<(Command, nat)>)
    requires 0 < capacity && WellFormed(db, rows)
    requires FreshRun(Start(db, capacity, rows, failures, now), cmds)
    ensures Invariant(Run(Start(db, capacity, rows, failures, now), cmds))
  {
    StartEstablishes(db, capacity, rows, failures, now);
    RunKeeps(Start(db, capacity, rows, failures, now), cmds);
  }
}
