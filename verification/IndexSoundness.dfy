/**
 The state index under every command, fresh inserts or not, with evictions and reloads:
 a cached drv is always found in the bucket of its current state.
 */
module IndexSoundness {
  import opened Drvs
  import opened Reachability
  import opened Graphs
  import opened GraphOps
  import opened Services
  import opened Startup
  import opened Traces

  ghost predicate Indexed(g: Graph) {
    forall n :: n in g.nodes ==> (g.nodes[n].state, n) in g.index
  }

  /** Every operation keeps each cached drv in the bucket of its state. */
  lemma ApplyIndexed(g: Graph, op: Op)
    requires Indexed(g)
    ensures Indexed(Apply(g, op))
  {
    match op
    case Insert(_, _) =>
    case Link(_, _) =>
    case SetState(_, _, _) =>
    case Propagate(_) =>
    case Clear(_) =>
    case Forget(_) =>
  }

  /** Over every run without exception, re-insertions included. */
  lemma EveryRunIsIndexed(db: Database, capacity: nat, rows: seq<Drv>, failures: seq<DrvId>, now: nat, cmds: seq<(Command, nat)>)
    requires 0 < capacity
    ensures Indexed(Run(Start(db, capacity, rows, failures, now), cmds).graph)
  {
    forall g, op | Indexed(g) ensures Indexed(Apply(g, op)) { ApplyIndexed(g, op); }
    EveryRunKeeps(Indexed, db, capacity, rows, failures, now, cmds);
  }
}
