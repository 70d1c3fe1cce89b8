/**
 The service while every stored drv fits the cache: there are no evictions and no reloads,
 and over every run the failure tracking stays exact.
 */
module BelowCapacity {
  import opened Wrappers
  import opened Drvs
  import opened Reachability
  import opened Graphs
  import opened GraphOps
  import opened Services
  import opened Mirror
  import opened FailureTracking
  import opened FailureRecords
  import Recovery
  import opened Startup
  import opened Traces

  /** Exactly the stored drvs are cached. */
  ghost predicate AllCached(s: Service) {
    forall n :: n in s.graph.nodes <==> n in s.db.drvs
  }

  /** What an insert needs to stay below capacity; every other command does. */
  ghost predicate Roomy(s: Service, cmd: Command) {
    cmd.InsertDrvsCmd? ==> NewDrvs(s, cmd.drvs, cmd.refs) && |s.graph.order| + |cmd.drvs| <= s.graph.capacity
  }

  // ---------------------------------------------------------------- the operations of a run

  lemma {:induction false} InsertEachCaches(s: Service, drvs: seq<Drv>, now: nat)
    requires AllCached(s) && GraphOps.Fresh(s.graph, drvs)
    ensures AllCached(InsertEach(s, drvs, now))
    ensures forall id :: Known(s, drvs, id) ==> id in InsertEach(s, drvs, now).db.drvs
    decreases |drvs|
  {
    if drvs != [] {
      var t := InsertDrv(s, drvs[0], now);
      assert GraphOps.Fresh(t.graph, drvs[1..]);
      InsertEachCaches(t, drvs[1..], now);
      forall id | Known(s, drvs, id) ensures Known(t, drvs[1..], id) {
        if id !in t.db.drvs {
          var i :| 0 <= i < |drvs| && drvs[i].id == id;
          assert drvs[1..][i - 1] == drvs[i];
        }
      }
    }
  }

  lemma {:induction false} LinkEachCaches(s: Service, refs: Refs)
    requires AllCached(s)
    ensures AllCached(LinkEach(s, refs))
    decreases |refs|
  {
    if refs != [] { LinkEachCaches(InsertRef(s, refs[0].0, refs[0].1), refs[1..]); }
  }

  /** With everything cached there is nothing to reload. */
  lemma {:induction false} NothingToLoad(s: Service, ids: seq<DrvId>, now: nat)
    requires AllCached(s)
    ensures EnsureAllLoaded(s, ids, now) == s && ReloadAllOps(s, ids, now) == []
    decreases |ids|
  {
    if ids != [] { NothingToLoad(s, ids[1..], now); }
  }

  lemma InsertIsAllowed(s: Service, drvs: seq<Drv>, refs: Refs, now: nat)
    requires AllCached(s) && Roomy(s, InsertDrvsCmd(drvs, refs))
    ensures Along(Allowed, s.graph, Inserts(drvs, now) + Links(refs))
    ensures AllCached(LinkEach(InsertEach(s, drvs, now), refs))
  {
    var mid := InsertEach(s, drvs, now);
    InsertEachCaches(s, drvs, now);
    LinkEachCaches(mid, refs);
    InsertEachIsOps(s, drvs, now);
    InsertsAllowed(s.graph, drvs, now);
    LinksAllowed(mid.graph, refs);
    AlongConcat(Allowed, s.graph, Inserts(drvs, now), Links(refs));
  }

  /** Below capacity every command is a run of allowed operations and caches what it stores. */
  lemma StepIsAllowed(s: Service, cmd: Command, now: nat)
    requires AllCached(s) && Roomy(s, cmd)
    ensures Along(Allowed, s.graph, StepOps(s, cmd, now)) && AllCached(Step(s, cmd, now))
  {
    match cmd
    case UpdateStateCmd(id, state) => UpdateStateStatesOnly(s, id, state, now);
    case InsertDrvsCmd(drvs, refs) => InsertIsAllowed(s, drvs, refs, now);
    case PropagateFailureCmd(failed) => PropagateFailureStatesOnly(s, failed);
    case ClearFailureCmd(failed) => ClearFailureStatesOnly(s, failed);
    case QueryCmd(ids) => NothingToLoad(s, ids, now);
    case PruneCmd(cutoff) =>
  }

  ghost predicate RoomyRun(s: Service, cmds: seq<(Command, nat)>)
    decreases |cmds|
  {
    cmds != [] ==> Roomy(s, cmds[0].0) && RoomyRun(Step(s, cmds[0].0, cmds[0].1), cmds[1..])
  }

  lemma {:induction false} RoomyRunIsAllowed(s: Service, cmds: seq<(Command, nat)>)
    requires AllCached(s) && RoomyRun(s, cmds)
    ensures MeetsEach(Allowed, s, cmds)
    decreases |cmds|
  {
    if cmds != [] {
      StepIsAllowed(s, cmds[0].0, cmds[0].1);
      RoomyRunIsAllowed(Step(s, cmds[0].0, cmds[0].1), cmds[1..]);
    }
  }

  /** No update sets the state of a drv that is blocked at that point. */
  ghost predicate SparingRun(s: Service, cmds: seq<(Command, nat)>)
    decreases |cmds|
  {
    cmds != [] ==>
      && (cmds[0].0.UpdateStateCmd? ==> Sparing(s.graph, SetState(cmds[0].0.id, cmds[0].0.state, cmds[0].1)))
      && SparingRun(Step(s, cmds[0].0, cmds[0].1), cmds[1..])
  }

  lemma StepIsSparing(s: Service, cmd: Command, now: nat)
    requires cmd.UpdateStateCmd? ==> Sparing(s.graph, SetState(cmd.id, cmd.state, now))
    ensures Along(Sparing, s.graph, StepOps(s, cmd, now))
  {
    if cmd.QueryCmd? { ReloadsLoad(s, cmd.ids, now); }
    if !cmd.UpdateStateCmd? { AlongAll(Sparing, s.graph, StepOps(s, cmd, now)); }
  }

  lemma {:induction false} SparingRunIsSparing(s: Service, cmds: seq<(Command, nat)>)
    requires SparingRun(s, cmds)
    ensures MeetsEach(Sparing, s, cmds)
    decreases |cmds|
  {
    if cmds != [] {
      StepIsSparing(s, cmds[0].0, cmds[0].1);
      SparingRunIsSparing(Step(s, cmds[0].0, cmds[0].1), cmds[1..]);
    }
  }

  // ---------------------------------------------------------------- runs from startup

  /** The rows enumerate the stored drvs and fit the cache. */
  ghost predicate Enumerated(db: Database, rows: seq<Drv>, capacity: nat) {
    Recovery.FitsCache(rows, db.refs, capacity) && forall n :: n in db.drvs <==> Recovery.Stored(rows, n)
  }

  lemma StartCachesAll(db: Database, capacity: nat, rows: seq<Drv>, failures: seq<DrvId>, now: nat)
    requires Enumerated(db, rows, capacity)
    ensures AllCached(Start(db, capacity, rows, failures, now))
  {
    var loaded := Recovery.Load(Empty(capacity), rows, now);
    Recovery.LoadEffect(Empty(capacity), rows, now);
    AddEdgesEffect(loaded, db.refs);
    PropagateAllKeepsEdges(AddEdges(loaded, db.refs), failures);
  }

  /** From startup on, a run below capacity is a run of allowed operations from the empty graph. */
  lemma WholeRunIsAllowed(db: Database, capacity: nat, rows: seq<Drv>, failures: seq<DrvId>, now: nat, cmds: seq<(Command, nat)>)
    requires Enumerated(db, rows, capacity) && RoomyRun(Start(db, capacity, rows, failures, now), cmds)
    ensures Along(Allowed, Empty(capacity), WholeOps(db, capacity, rows, failures, now, cmds))
  {
    StartCachesAll(db, capacity, rows, failures, now);
    RoomyRunIsAllowed(Start(db, capacity, rows, failures, now), cmds);
    Recovery.StartupAllowed(capacity, rows, db.refs, failures, now);
    WholeRunMeets(Allowed, db, capacity, rows, failures, now, cmds);
  }

  /**
   From startup on, over every run below capacity: whoever is blocked is blocked by exactly
   the failures whose map entry names it, only by drvs it depends on, and the state index is
   exact. The periodic clean-up gives up the entries of old failures and nothing else.
   */
  lemma EveryRoomyRunTracks(db: Database, capacity: nat, rows: seq<Drv>, failures: seq<DrvId>, now: nat, cmds: seq<(Command, nat)>)
    requires Enumerated(db, rows, capacity) && RoomyRun(Start(db, capacity, rows, failures, now), cmds)
    ensures var g := Run(Start(db, capacity, rows, failures, now), cmds).graph;
            Tracking(g) && (NoPrune(cmds) ==> Inverse(g))
  {
    var ops := WholeOps(db, capacity, rows, failures, now, cmds);
    WholeRunIsOps(db, capacity, rows, failures, now, cmds);
    WholeRunIsAllowed(db, capacity, rows, failures, now, cmds);
    RunKeepsTracking(Empty(capacity), ops);
    if NoPrune(cmds) {
      Recovery.StartupOpsAre(rows, db.refs, failures, now, Empty(capacity));
      CommandsRemember(Start(db, capacity, rows, failures, now), cmds);
      WholeRunMeets(Remembering, db, capacity, rows, failures, now, cmds);
      RunKeepsInverse(Empty(capacity), ops);
    }
  }

  /** Over every run below capacity, a drv on record as failed is cached and has not succeeded since. */
  lemma EveryRoomyRunIsCurrent(db: Database, capacity: nat, rows: seq<Drv>, failures: seq<DrvId>, now: nat, cmds: seq<(Command, nat)>)
    requires Enumerated(db, rows, capacity) && RoomyRun(Start(db, capacity, rows, failures, now), cmds)
    ensures Current(Run(Start(db, capacity, rows, failures, now), cmds).graph)
  {
    WholeRunIsOps(db, capacity, rows, failures, now, cmds);
    WholeRunIsAllowed(db, capacity, rows, failures, now, cmds);
    RunKeepsCurrent(Empty(capacity), WholeOps(db, capacity, rows, failures, now, cmds));
  }

  /**
   Over every run, with evictions and reloads, that sets no blocked drv's state directly, a drv
   with a recorded blocker is in TransitiveFailure.
   */
  lemma EveryRunKeepsBlockedFailed(db: Database, capacity: nat, rows: seq<Drv>, failures: seq<DrvId>, now: nat, cmds: seq<(Command, nat)>)
    requires 0 < capacity && SparingRun(Start(db, capacity, rows, failures, now), cmds)
    ensures BlockedAreFailed(Run(Start(db, capacity, rows, failures, now), cmds).graph)
  {
    Recovery.StartupOpsAre(rows, db.refs, failures, now, Empty(capacity));
    SparingRunIsSparing(Start(db, capacity, rows, failures, now), cmds);
    WholeRunMeets(Sparing, db, capacity, rows, failures, now, cmds);
    WholeRunIsOps(db, capacity, rows, failures, now, cmds);
    RunKeepsBlockedFailed(Empty(capacity), WholeOps(db, capacity, rows, failures, now, cmds));
  }
}
