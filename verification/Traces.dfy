/**
 The service seen from its graph: every command, and hence every run from startup, changes
 the graph by a sequence of graph operations, with evictions, reloads and re-insertions.
 */
module Traces {
  import opened Drvs
  import opened Reachability
  import opened Graphs
  import opened GraphOps
  import opened Services
  import opened Recovery
  import opened Startup

  /** One reload; nothing if the drv is cached already or not stored. */
  ghost function ReloadOps(s: Service, id: DrvId, now: nat): seq<Op> {
    if id in s.graph.nodes || id !in s.db.drvs then []
    else [Insert(StoredDrv(s.db, id), now)] + (Links(RefsFrom(s.db.refs, id)) + Links(RefsTo(s.db.refs, id)))
  }

  ghost function ReloadAllOps(s: Service, ids: seq<DrvId>, now: nat): seq<Op>
    decreases |ids|
  {
    if ids == [] then []
    else ReloadOps(s, ids[0], now) + ReloadAllOps(EnsureLoaded(s, ids[0], now), ids[1..], now)
  }

  ghost function StepOps(s: Service, cmd: Command, now: nat): seq<Op> {
    match cmd
    case UpdateStateCmd(id, state) => [SetState(id, state, now)]
    case InsertDrvsCmd(drvs, refs) => Inserts(drvs, now) + Links(refs)
    case PropagateFailureCmd(failed) => [Propagate(failed)]
    case ClearFailureCmd(failed) => [Clear(failed)]
    case QueryCmd(ids) => ReloadAllOps(s, ids, now)
    case PruneCmd(cutoff) => [Forget(cutoff)]
  }

  ghost function CommandOps(s: Service, cmds: seq<(Command, nat)>): seq<Op>
    decreases |cmds|
  {
    if cmds == [] then []
    else StepOps(s, cmds[0].0, cmds[0].1) + CommandOps(Step(s, cmds[0].0, cmds[0].1), cmds[1..])
  }

  // ---------------------------------------------------------------- commands

  lemma RunOne(g: Graph, op: Op)
    ensures RunOps(g, [op]) == Apply(g, op)
  {
    var ops := [op];
    assert ops[1..] == [];
  }

  lemma ReloadIsOps(s: Service, id: DrvId, now: nat)
    ensures EnsureLoaded(s, id, now).graph == RunOps(s.graph, ReloadOps(s, id, now))
  {
    if id !in s.graph.nodes && id in s.db.drvs {
      var drv, up, down := StoredDrv(s.db, id), RefsFrom(s.db.refs, id), RefsTo(s.db.refs, id);
      var admitted := Apply(s.graph, Insert(drv, now));
      RunOpsConcat(s.graph, [Insert(drv, now)], Links(up) + Links(down));
      RunOne(s.graph, Insert(drv, now));
      RunOpsConcat(admitted, Links(up), Links(down));
      LinksAddEdges(admitted, up);
      LinksAddEdges(AddEdges(admitted, up), down);
    }
  }

  lemma {:induction false} ReloadAllIsOps(s: Service, ids: seq<DrvId>, now: nat)
    ensures EnsureAllLoaded(s, ids, now).graph == RunOps(s.graph, ReloadAllOps(s, ids, now))
    decreases |ids|
  {
    if ids != [] {
      var t := EnsureLoaded(s, ids[0], now);
      ReloadIsOps(s, ids[0], now);
      ReloadAllIsOps(t, ids[1..], now);
      RunOpsConcat(s.graph, ReloadOps(s, ids[0], now), ReloadAllOps(t, ids[1..], now));
    }
  }

  lemma {:induction false} InsertEachIsOps(s: Service, drvs: seq<Drv>, now: nat)
    ensures InsertEach(s, drvs, now).graph == RunOps(s.graph, Inserts(drvs, now))
    decreases |drvs|
  {
    if drvs != [] {
      assert Inserts(drvs, now)[1..] == Inserts(drvs[1..], now);
      InsertEachIsOps(InsertDrv(s, drvs[0], now), drvs[1..], now);
    }
  }

  lemma {:induction false} LinkEachIsOps(s: Service, refs: Refs)
    ensures LinkEach(s, refs).graph == RunOps(s.graph, Links(refs))
    decreases |refs|
  {
    if refs != [] {
      assert Links(refs)[1..] == Links(refs[1..]);
      LinkEachIsOps(InsertRef(s, refs[0].0, refs[0].1), refs[1..]);
    }
  }

  lemma LinkingFrame(s: Service, refs: Refs)
    ensures LinkEach(s, refs).graph == AddEdges(s.graph, refs)
    ensures LinkEach(s, refs).graph == s.graph.(nodes := LinkEach(s, refs).graph.nodes)
    ensures LinkEach(s, refs).graph.nodes.Keys == s.graph.nodes.Keys
  {
    LinkEachIsOps(s, refs);
    LinksAddEdges(s.graph, refs);
    AddEdgesFrame(s.graph, refs);
  }

  lemma StepIsOps(s: Service, cmd: Command, now: nat)
    ensures Step(s, cmd, now).graph == RunOps(s.graph, StepOps(s, cmd, now))
  {
    match cmd
    case UpdateStateCmd(id, state) => RunOne(s.graph, SetState(id, state, now));
    case InsertDrvsCmd(drvs, refs) =>
      InsertEachIsOps(s, drvs, now);
      LinkEachIsOps(InsertEach(s, drvs, now), refs);
      RunOpsConcat(s.graph, Inserts(drvs, now), Links(refs));
    case PropagateFailureCmd(failed) => RunOne(s.graph, Propagate(failed));
    case ClearFailureCmd(failed) => RunOne(s.graph, Clear(failed));
    case QueryCmd(ids) => ReloadAllIsOps(s, ids, now);
    case PruneCmd(cutoff) => RunOne(s.graph, Forget(cutoff));
  }

  // ---------------------------------------------------------------- runs

  /** The graph after a run of the service is the graph after the run's operations. */
  lemma {:induction false} RunIsOps(s: Service, cmds: seq<(Command, nat)>)
    ensures Run(s, cmds).graph == RunOps(s.graph, CommandOps(s, cmds))
    decreases |cmds|
  {
    if cmds != [] {
      var t := Step(s, cmds[0].0, cmds[0].1);
      StepIsOps(s, cmds[0].0, cmds[0].1);
      RunIsOps(t, cmds[1..]);
      RunOpsConcat(s.graph, StepOps(s, cmds[0].0, cmds[0].1), CommandOps(t, cmds[1..]));
    }
  }

  /** A condition that holds along the operations of every command holds along those of the run. */
  lemma {:induction false} CommandsMeet(q: (Graph, Op) -> bool, s: Service, cmds: seq<(Command, nat)>)
    requires MeetsEach(q, s, cmds)
    ensures Along(q, s.graph, CommandOps(s, cmds))
    decreases |cmds|
  {
    if cmds != [] {
      var t := Step(s, cmds[0].0, cmds[0].1);
      StepIsOps(s, cmds[0].0, cmds[0].1);
      CommandsMeet(q, t, cmds[1..]);
      AlongConcat(q, s.graph, StepOps(s, cmds[0].0, cmds[0].1), CommandOps(t, cmds[1..]));
    }
  }

  ghost predicate MeetsEach(q: (Graph, Op) -> bool, s: Service, cmds: seq<(Command, nat)>)
    decreases |cmds|
  {
    cmds != [] ==>
      && Along(q, s.graph, StepOps(s, cmds[0].0, cmds[0].1))
      && MeetsEach(q, Step(s, cmds[0].0, cmds[0].1), cmds[1..])
  }

  /** From the empty graph through startup to the end of the run. */
  ghost function WholeOps(db: Database, capacity: nat, rows: seq<Drv>, failures: seq<DrvId>, now: nat, cmds: seq<(Command, nat)>): seq<Op>
    requires 0 < capacity
  {
    StartupOps(rows, db.refs, failures, now) + CommandOps(Start(db, capacity, rows, failures, now), cmds)
  }

  lemma WholeRunIsOps(db: Database, capacity: nat, rows: seq<Drv>, failures: seq<DrvId>, now: nat, cmds: seq<(Command, nat)>)
    requires 0 < capacity
    ensures Run(Start(db, capacity, rows, failures, now), cmds).graph
         == RunOps(Empty(capacity), WholeOps(db, capacity, rows, failures, now, cmds))
  {
    var s := Start(db, capacity, rows, failures, now);
    RecoverIsOps(capacity, rows, db.refs, failures, now);
    RunIsOps(s, cmds);
    RunOpsConcat(Empty(capacity), StartupOps(rows, db.refs, failures, now), CommandOps(s, cmds));
  }

  lemma WholeRunMeets(q: (Graph, Op) -> bool, db: Database, capacity: nat, rows: seq<Drv>, failures: seq<DrvId>, now: nat, cmds: seq<(Command, nat)>)
    requires 0 < capacity && Along(q, Empty(capacity), StartupOps(rows, db.refs, failures, now))
    requires MeetsEach(q, Start(db, capacity, rows, failures, now), cmds)
    ensures Along(q, Empty(capacity), WholeOps(db, capacity, rows, failures, now, cmds))
  {
    var s := Start(db, capacity, rows, failures, now);
    RecoverIsOps(capacity, rows, db.refs, failures, now);
    CommandsMeet(q, s, cmds);
    AlongConcat(q, Empty(capacity), StartupOps(rows, db.refs, failures, now), CommandOps(s, cmds));
  }

  /** What the empty graph has and every operation keeps, holds after every run, whatever it inserts. */
  lemma EveryRunKeeps(p: Graph -> bool, db: Database, capacity: nat, rows: seq<Drv>, failures: seq<DrvId>, now: nat, cmds: seq<(Command, nat)>)
    requires 0 < capacity && p(Empty(capacity))
    requires forall g, op :: p(g) ==> p(Apply(g, op))
    ensures p(Run(Start(db, capacity, rows, failures, now), cmds).graph)
  {
    var ops := WholeOps(db, capacity, rows, failures, now, cmds);
    WholeRunIsOps(db, capacity, rows, failures, now, cmds);
    AlongAll(Anything, Empty(capacity), ops);
    RunOpsKeep(p, Anything, Empty(capacity), ops);
  }

  // ---------------------------------------------------------------- pruning and updating

  predicate NoPrune(cmds: seq<(Command, nat)>) {
    forall i :: 0 <= i < |cmds| ==> !cmds[i].0.PruneCmd?
  }

  /** Nothing but what a reload consists of. */
  predicate Loads(ops: seq<Op>) {
    forall i :: 0 <= i < |ops| ==> ops[i].Insert? || ops[i].Link?
  }

  lemma LoadsConcat(a: seq<Op>, b: seq<Op>)
    requires Loads(a) && Loads(b)
    ensures Loads(a + b)
  {
  }

  lemma ReloadLoads(s: Service, id: DrvId, now: nat)
    ensures Loads(ReloadOps(s, id, now))
  {
    if id !in s.graph.nodes && id in s.db.drvs {
      var up, down := Links(RefsFrom(s.db.refs, id)), Links(RefsTo(s.db.refs, id));
      LoadsConcat(up, down);
      LoadsConcat([Insert(StoredDrv(s.db, id), now)], up + down);
    }
  }

  lemma {:induction false} ReloadsLoad(s: Service, ids: seq<DrvId>, now: nat)
    ensures Loads(ReloadAllOps(s, ids, now))
    decreases |ids|
  {
    if ids != [] {
      var t := EnsureLoaded(s, ids[0], now);
      ReloadLoads(s, ids[0], now);
      ReloadsLoad(t, ids[1..], now);
      LoadsConcat(ReloadOps(s, ids[0], now), ReloadAllOps(t, ids[1..], now));
    }
  }

  lemma StepRemembers(s: Service, cmd: Command, now: nat)
    requires !cmd.PruneCmd?
    ensures Along(Remembering, s.graph, StepOps(s, cmd, now))
  {
    if cmd.QueryCmd? { ReloadsLoad(s, cmd.ids, now); }
    AlongAll(Remembering, s.graph, StepOps(s, cmd, now));
  }

  /** Only a prune forgets. */
  lemma {:induction false} CommandsRemember(s: Service, cmds: seq<(Command, nat)>)
    requires NoPrune(cmds)
    ensures MeetsEach(Remembering, s, cmds)
    decreases |cmds|
  {
    if cmds != [] {
      StepRemembers(s, cmds[0].0, cmds[0].1);
      CommandsRemember(Step(s, cmds[0].0, cmds[0].1), cmds[1..]);
    }
  }
}
