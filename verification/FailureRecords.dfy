/**
 The record of permanent failures: which failed drvs it has, over every run of the service,
 and what its entries are about below capacity.
 */
module FailureRecords {
  import opened Drvs
  import opened Reachability
  import opened Graphs
  import opened GraphOps
  import opened Services
  import opened Recovery
  import opened Startup
  import opened Traces

  /** Every cached drv that has failed is on record. */
  ghost predicate Recorded(g: Graph) {
    forall n :: n in g.nodes && g.nodes[n].state == FAILED ==> n in g.failed
  }

  /** Every drv on record is cached, and has not succeeded since. */
  ghost predicate Current(g: Graph) {
    forall n :: n in g.failed ==> n in g.nodes && g.nodes[n].state != SUCCEEDED
  }

  // ---------------------------------------------------------------- every command

  lemma InsertRecorded(g: Graph, drv: Drv, now: nat)
    requires Recorded(g)
    ensures Recorded(InsertNode(g, drv, now).graph)
  {
  }

  lemma ApplyRecorded(g: Graph, op: Op)
    requires Recorded(g) && Remembering(g, op)
    ensures Recorded(Apply(g, op))
  {
    match op
    case Insert(drv, now) => InsertRecorded(g, drv, now);
    case Link(_, _) =>
    case SetState(_, _, _) =>
    case Propagate(_) =>
    case Clear(_) =>
  }

  /** Until something is pruned, over every run with evictions, reloads and re-insertions. */
  lemma EveryRunIsRecorded(db: Database, capacity: nat, rows: seq<Drv>, failures: seq<DrvId>, now: nat, cmds: seq<(Command, nat)>)
    requires 0 < capacity && NoPrune(cmds)
    ensures Recorded(Run(Start(db, capacity, rows, failures, now), cmds).graph)
  {
    forall g, op | Recorded(g) && Remembering(g, op) ensures Recorded(Apply(g, op)) { ApplyRecorded(g, op); }
    StartupOpsAre(rows, db.refs, failures, now, Empty(capacity));
    CommandsRemember(Start(db, capacity, rows, failures, now), cmds);
    WholeRunMeets(Remembering, db, capacity, rows, failures, now, cmds);
    WholeRunIsOps(db, capacity, rows, failures, now, cmds);
    RunOpsKeep(Recorded, Remembering, Empty(capacity), WholeOps(db, capacity, rows, failures, now, cmds));
  }

  // ---------------------------------------------------------------- below capacity

  lemma InsertKeepsCurrent(g: Graph, drv: Drv, now: nat)
    requires Current(g) && Allowed(g, Insert(drv, now))
    ensures Current(InsertNode(g, drv, now).graph)
  {
  }

  lemma SetStateKeepsCurrent(g: Graph, id: DrvId, state: BuildState, now: nat)
    requires Current(g)
    ensures Current(Graphs.UpdateState(g, id, state, now))
  {
  }

  /** An operation that records nothing and makes nothing succeed. */
  lemma FewerAreCurrent(g: Graph, h: Graph)
    requires Current(g) && g.nodes.Keys == h.nodes.Keys && h.failed.Keys <= g.failed.Keys
    requires forall n :: n in g.nodes && h.nodes[n].state == SUCCEEDED ==> g.nodes[n].state == SUCCEEDED
    ensures Current(h)
  {
  }

  lemma ApplyKeepsCurrent(g: Graph, op: Op)
    requires Current(g) && Allowed(g, op)
    ensures Current(Apply(g, op))
  {
    match op
    case Insert(drv, now) => InsertKeepsCurrent(g, drv, now);
    case SetState(id, state, now) => SetStateKeepsCurrent(g, id, state, now);
    case Link(_, _) => FewerAreCurrent(g, Apply(g, op));
    case Propagate(_) => FewerAreCurrent(g, Apply(g, op));
    case Clear(_) => FewerAreCurrent(g, Apply(g, op));
    case Forget(_) => FewerAreCurrent(g, Apply(g, op));
  }

  /** Over every run below capacity the record names cached drvs only, and none that succeeded. */
  lemma RunKeepsCurrent(g: Graph, ops: seq<Op>)
    requires Current(g) && Along(Allowed, g, ops)
    ensures Current(RunOps(g, ops))
  {
    forall h, op | Current(h) && Allowed(h, op) ensures Current(Apply(h, op)) { ApplyKeepsCurrent(h, op); }
    RunOpsKeep(Current, Allowed, g, ops);
  }

  /**
   With evictions that is false: a drv may succeed while it is not cached. A reload brings back
   a succeeded drv that is on record as failed exactly if it was on record and stored as succeeded.
   */
  lemma ReloadIsStaleIff(s: Service, id: DrvId, now: nat)
    requires id !in s.graph.nodes && id in s.db.drvs
    ensures Stale(EnsureLoaded(s, id, now).graph, id) <==> id in s.graph.failed && s.db.drvs[id].state == SUCCEEDED
  {
    var m := Admit(s, StoredDrv(s.db, id), now).graph;
    var up, down := RefsFrom(s.db.refs, id), RefsTo(s.db.refs, id);
    AdmitStale(s, StoredDrv(s.db, id), now);
    LinkingKeepsStale(m, up, id);
    LinkingKeepsStale(AddEdges(m, up), down, id);
  }

  /** On record as failed, and cached as succeeded. */
  predicate Stale(g: Graph, id: DrvId) {
    id in g.failed && id in g.nodes && g.nodes[id].state == SUCCEEDED
  }

  lemma AdmitStale(s: Service, drv: Drv, now: nat)
    ensures var g := Admit(s, drv, now).graph;
            drv.id in g.nodes && (Stale(g, drv.id) <==> drv.id in s.graph.failed && drv.state == SUCCEEDED)
  {
  }

  lemma LinkingKeepsStale(g: Graph, edges: Refs, id: DrvId)
    requires id in g.nodes
    ensures id in AddEdges(g, edges).nodes && (Stale(AddEdges(g, edges), id) <==> Stale(g, id))
  {
    AddEdgesFrame(g, edges);
    AddEdgesExtends(g, edges, id);
  }
}
