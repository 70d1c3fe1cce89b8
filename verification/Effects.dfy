/**
 What each command does to a drv, field by field: in the graph, in the shared view, in the
 tables and in the stored rows. States and constants are written out.
 */
module Effects {
  import opened Sequences
  import opened Drvs
  import opened Reachability
  import opened Graphs
  import opened Services
  import opened Mirror
  import opened FailureTracking
  import Handles

  // ---------------------------------------------------------------- updates

  /** An update sets the state of the cached node and changes nothing else in the graph but index and record. */
  lemma UpdateNodes(s: Service, id: DrvId, state: BuildState, now: nat)
    ensures var g, h := s.graph, Step(s, UpdateStateCmd(id, state), now).graph;
            && h.order == g.order && h.capacity == g.capacity && h.failureMap == g.failureMap
            && h.nodes == (if id in g.nodes then g.nodes[id := g.nodes[id].(state := state)] else g.nodes)
  {
  }

  /** The record of failures: in with the time after a failure, out after a success, otherwise as before. */
  lemma UpdateRecord(s: Service, id: DrvId, state: BuildState, now: nat, f: DrvId)
    ensures var g, h := s.graph, Step(s, UpdateStateCmd(id, state), now).graph;
            if f == id && id in g.nodes && state == Completed(Failure) then f in h.failed && h.failed[f] == now
            else if f == id && id in g.nodes && state == Completed(Success) then f !in h.failed
            else (f in h.failed <==> f in g.failed) && (f in g.failed ==> h.failed[f] == g.failed[f])
  {
  }

  /** With exact buckets an updated drv is in the bucket of its new state and in no other. */
  lemma UpdateBuckets(s: Service, id: DrvId, state: BuildState, now: nat, st: BuildState, n: DrvId)
    requires IndexExact(s.graph)
    ensures (st, n) in Step(s, UpdateStateCmd(id, state), now).graph.index <==>
            n in s.graph.nodes && st == if n == id then state else s.graph.nodes[n].state
  {
  }

  /** The view entry and the stored row get the state, each where it is present; every other entry stays. */
  lemma UpdateTables(s: Service, id: DrvId, state: BuildState, now: nat)
    ensures var t := Step(s, UpdateStateCmd(id, state), now);
            && t.view == (if id in s.view then s.view[id := s.view[id].(state := state)] else s.view)
            && t.db.drvs == (if id in s.db.drvs then s.db.drvs[id := s.db.drvs[id].(state := state)] else s.db.drvs)
            && t.db.refs == s.db.refs && t.refCounts == s.refCounts && t.lastAccessed == s.lastAccessed
  {
  }

  /** An update of a drv that is not cached reaches its row only. */
  lemma UpdateUncached(s: Service, id: DrvId, state: BuildState, now: nat)
    requires Invariant(s) && id !in s.graph.nodes
    ensures var t := Step(s, UpdateStateCmd(id, state), now); t.graph == s.graph && t.view == s.view
  {
    UpdateTables(s, id, state, now);
  }

  /** The lock-free view says that a drv has succeeded. */
  predicate ShownSucceeded(view: View, id: DrvId) {
    id in view && view[id].state == Completed(Success)
  }

  lemma SuccessIsShown(s: Service, y: DrvId, now: nat, z: DrvId)
    requires y in s.view
    ensures var t := Step(s, UpdateStateCmd(y, Completed(Success)), now);
            ShownSucceeded(t.view, z) <==> z == y || ShownSucceeded(s.view, z)
  {
    UpdateTables(s, y, Completed(Success), now);
  }

  /** `BuildableByStoredRefs` with the state written out. */
  lemma BuildableIsShown(s: Service, x: DrvId)
    requires Invariant(s) && x in s.graph.nodes
    ensures Handles.IsBuildable(s.view, x) <==> forall z :: (x, z) in s.db.refs ==> ShownSucceeded(s.view, z)
  {
    Handles.BuildableByStoredRefs(s, x);
    forall z ensures Handles.Succeeded(s.view, z) <==> ShownSucceeded(s.view, z) { }
  }

  /**
   When an update makes a drv succeed, a cached referrer becomes buildable in the view exactly
   if all its other stored references are shown to have succeeded.
   */
  lemma SuccessMakesBuildable(s: Service, x: DrvId, y: DrvId, now: nat)
    requires Invariant(s) && x in s.graph.nodes && y in s.graph.nodes
    ensures Handles.IsBuildable(Step(s, UpdateStateCmd(y, Completed(Success)), now).view, x) <==>
            forall z :: (x, z) in s.db.refs && z != y ==> ShownSucceeded(s.view, z)
  {
    var t := Step(s, UpdateStateCmd(y, Completed(Success)), now);
    ViewShows(s, y);
    assert x in t.graph.nodes by { UpdateNodes(s, y, Completed(Success), now); }
    assert t.db.refs == s.db.refs by { UpdateTables(s, y, Completed(Success), now); }
    StepKeeps(s, UpdateStateCmd(y, Completed(Success)), now);
    BuildableIsShown(t, x);
    forall z ensures ShownSucceeded(t.view, z) <==> z == y || ShownSucceeded(s.view, z) { SuccessIsShown(s, y, now, z); }
  }

  /** As long as a stored reference is not shown to have succeeded, the drv is not buildable. */
  lemma UnfinishedIsNotBuildable(s: Service, x: DrvId, y: DrvId)
    requires Invariant(s) && x in s.graph.nodes && (x, y) in s.db.refs && !ShownSucceeded(s.view, y)
    ensures !Handles.IsBuildable(s.view, x)
  {
    BuildableIsShown(s, x);
  }

  /** What the handle reads of a cached drv is what the graph has. */
  lemma ViewShows(s: Service, id: DrvId)
    requires Invariant(s)
    ensures id in s.view <==> id in s.graph.nodes
    ensures id in s.graph.nodes ==>
              && s.view[id].id == s.graph.nodes[id].id && s.view[id].meta == s.graph.nodes[id].meta
              && s.view[id].state == s.graph.nodes[id].state && s.view[id].dependencies == s.graph.nodes[id].dependencies
  {
  }

  // ---------------------------------------------------------------- insertions

  /** A node as it is right after its insertion. */
  predicate Fresh(node: Node, id: DrvId, meta: Meta, state: BuildState) {
    node.id == id && node.meta == meta && node.state == state && node.dependencies == [] && node.dependents == [] && node.blockers == {}
  }

  /** The inserted node has the fields of the drv; every other node that stays is as before. */
  lemma InsertNodes(g: Graph, drv: Drv, now: nat, n: DrvId)
    ensures var h := InsertNode(g, drv, now).graph;
            if n == drv.id then n in h.nodes && Fresh(h.nodes[n], drv.id, drv.meta, drv.state)
            else n in h.nodes ==> n in g.nodes && h.nodes[n] == g.nodes[n]
  {
  }

  /** A drv inserted as failed is recorded with the time; nothing else enters or leaves the record. */
  lemma InsertRecord(g: Graph, drv: Drv, now: nat, f: DrvId)
    ensures var h := InsertNode(g, drv, now).graph;
            if f == drv.id && drv.state == Completed(Failure) then f in h.failed && h.failed[f] == now
            else (f in h.failed <==> f in g.failed) && (f in g.failed ==> h.failed[f] == g.failed[f])
  {
  }

  /** One inserted drv as the graph, the view, the access times and the rows show it. */
  lemma InsertShows(s: Service, drv: Drv, now: nat)
    ensures var t := InsertDrv(s, drv, now);
            && drv.id in t.graph.nodes && Fresh(t.graph.nodes[drv.id], drv.id, drv.meta, drv.state)
            && drv.id in t.view && t.view[drv.id].meta == drv.meta && t.view[drv.id].state == drv.state
            && t.view[drv.id].dependencies == []
            && drv.id in t.lastAccessed && t.lastAccessed[drv.id] == now
            && t.db.drvs == (if drv.id in s.db.drvs then s.db.drvs else s.db.drvs[drv.id := Row(drv.meta, drv.state)])
  {
    InsertNodes(s.graph, drv, now, drv.id);
  }

  // ---------------------------------------------------------------- reloads

  lemma ReloadsOne(s: Service, id: DrvId, now: nat)
    ensures Step(s, QueryCmd([id]), now) == EnsureLoaded(s, id, now)
  {
    var ids := [id];
    assert ids[1..] == [];
    assert EnsureAllLoaded(s, ids, now) == EnsureAllLoaded(EnsureLoaded(s, ids[0], now), [], now);
  }

  /** A query for a drv that is cached, or not stored, changes nothing. */
  lemma QueryOfCached(s: Service, id: DrvId, now: nat)
    requires id in s.graph.nodes || id !in s.db.drvs
    ensures Step(s, QueryCmd([id]), now) == s
  {
    ReloadsOne(s, id, now);
  }

  lemma LoadsCons(s: Service, a: seq<DrvId>, b: seq<DrvId>, now: nat, t: Service)
    requires a != [] && t == EnsureLoaded(s, a[0], now)
    ensures EnsureAllLoaded(s, a, now) == EnsureAllLoaded(t, a[1..], now)
    ensures EnsureAllLoaded(s, a + b, now) == EnsureAllLoaded(t, a[1..] + b, now)
  {
    assert (a + b)[0] == a[0] && (a + b)[1..] == a[1..] + b;
  }

  lemma {:induction false} LoadsConcat(s: Service, a: seq<DrvId>, b: seq<DrvId>, now: nat)
    ensures EnsureAllLoaded(s, a + b, now) == EnsureAllLoaded(EnsureAllLoaded(s, a, now), b, now)
    decreases |a|
  {
    if a == [] {
      assert a + b == b;
    } else {
      var t := EnsureLoaded(s, a[0], now);
      LoadsCons(s, a, b, now, t);
      LoadsConcat(t, a[1..], b, now);
    }
  }

  /** A query for several drvs is one for each, in order. */
  lemma QueriesConcat(s: Service, a: seq<DrvId>, b: seq<DrvId>, now: nat)
    ensures Step(s, QueryCmd(a + b), now) == Step(Step(s, QueryCmd(a), now), QueryCmd(b), now)
  {
    LoadsConcat(s, a, b, now);
  }

  /** Linking keeps everything about a node but its adjacency, and the record of failures. */
  lemma LinkingKeeps(g: Graph, edges: Refs, n: DrvId)
    requires n in g.nodes
    ensures var h := AddEdges(g, edges);
            && n in h.nodes && h.failed == g.failed && h.index == g.index
            && h.nodes[n].id == g.nodes[n].id && h.nodes[n].meta == g.nodes[n].meta
            && h.nodes[n].state == g.nodes[n].state && h.nodes[n].blockers == g.nodes[n].blockers
  {
    AddEdgesFrame(g, edges);
    AddEdgesExtends(g, edges, n);
  }

  /** A node as a reload brings it back. */
  predicate AsStored(node: Node, id: DrvId, row: Row) {
    node.id == id && node.meta == row.meta && node.state == row.state && node.blockers == {}
  }

  lemma ReloadNode(s: Service, id: DrvId, now: nat)
    requires id !in s.graph.nodes && id in s.db.drvs
    ensures var g := EnsureLoaded(s, id, now).graph;
            && id in g.nodes && AsStored(g.nodes[id], id, s.db.drvs[id])
            && (s.db.drvs[id].state, id) in g.index
            && (s.db.drvs[id].state == Completed(Failure) ==> id in g.failed && g.failed[id] == now)
  {
    var drv := StoredDrv(s.db, id);
    var m := Admit(s, drv, now).graph;
    var up, down := RefsFrom(s.db.refs, id), RefsTo(s.db.refs, id);
    InsertNodes(s.graph, drv, now, id);
    InsertRecord(s.graph, drv, now, id);
    assert m == InsertNode(s.graph, drv, now).graph;
    LinkingKeeps(m, up, id);
    LinkingKeeps(AddEdges(m, up), down, id);
  }

  /**
   A query for a stored drv that is not cached: node and view entry have the state and the
   descriptive fields of the row and no blockers, and a stored failure is recorded with the time.
   */
  lemma QueryShowsRow(s: Service, id: DrvId, now: nat)
    requires id !in s.graph.nodes && id in s.db.drvs
    ensures var t := Step(s, QueryCmd([id]), now);
            && t.db == s.db
            && id in t.graph.nodes && AsStored(t.graph.nodes[id], id, s.db.drvs[id])
            && id in t.view && t.view[id].id == id && t.view[id].meta == s.db.drvs[id].meta && t.view[id].state == s.db.drvs[id].state
            && (s.db.drvs[id].state == Completed(Failure) ==> id in t.graph.failed && t.graph.failed[id] == now)
  {
    ReloadsOne(s, id, now);
    ReloadNode(s, id, now);
  }

  /** A command that leaves the row of a stored drv alone: any but an update of it or a propagation. */
  predicate SparesRow(cmd: Command, id: DrvId) {
    match cmd
    case UpdateStateCmd(other, _) => other != id
    case PropagateFailureCmd(_) => false
    case _ => true
  }

  lemma {:induction false} InsertEachKeepsRow(s: Service, drvs: seq<Drv>, now: nat, id: DrvId)
    requires id in s.db.drvs
    ensures id in InsertEach(s, drvs, now).db.drvs && InsertEach(s, drvs, now).db.drvs[id] == s.db.drvs[id]
    decreases |drvs|
  {
    if drvs != [] { InsertEachKeepsRow(InsertDrv(s, drvs[0], now), drvs[1..], now, id); }
  }

  lemma {:induction false} LinkEachKeepsRows(s: Service, refs: Refs)
    ensures LinkEach(s, refs).db.drvs == s.db.drvs
    decreases |refs|
  {
    if refs != [] { LinkEachKeepsRows(InsertRef(s, refs[0].0, refs[0].1), refs[1..]); }
  }

  lemma {:induction false} EnsureAllLoadedKeepsRows(s: Service, ids: seq<DrvId>, now: nat)
    ensures EnsureAllLoaded(s, ids, now).db == s.db
    decreases |ids|
  {
    if ids != [] { EnsureAllLoadedKeepsRows(EnsureLoaded(s, ids[0], now), ids[1..], now); }
  }

  lemma StepKeepsRow(s: Service, cmd: Command, now: nat, id: DrvId)
    requires id in s.db.drvs && SparesRow(cmd, id)
    ensures id in Step(s, cmd, now).db.drvs && Step(s, cmd, now).db.drvs[id] == s.db.drvs[id]
  {
    match cmd
    case UpdateStateCmd(other, state) => UpdateTables(s, other, state, now);
    case InsertDrvsCmd(drvs, refs) =>
      InsertEachKeepsRow(s, drvs, now, id);
      LinkEachKeepsRows(InsertEach(s, drvs, now), refs);
    case ClearFailureCmd(_) =>
    case QueryCmd(ids) => EnsureAllLoadedKeepsRows(s, ids, now);
    case PruneCmd(_) =>
  }

  lemma {:induction false} RunKeepsRow(s: Service, cmds: seq<(Command, nat)>, id: DrvId)
    requires id in s.db.drvs && forall i :: 0 <= i < |cmds| ==> SparesRow(cmds[i].0, id)
    ensures id in Run(s, cmds).db.drvs && Run(s, cmds).db.drvs[id] == s.db.drvs[id]
    decreases |cmds|
  {
    if cmds != [] {
      StepKeepsRow(s, cmds[0].0, cmds[0].1, id);
      RunKeepsRow(Step(s, cmds[0].0, cmds[0].1), cmds[1..], id);
    }
  }

  /**
   What an update leaves is what a later query shows: after any run of commands that spare the
   row, at the end of which the drv is not cached, the query shows the state of the update.
   */
  lemma UpdateIsShownLater(s: Service, id: DrvId, state: BuildState, now: nat, cmds: seq<(Command, nat)>, later: nat)
    requires id in s.db.drvs && forall i :: 0 <= i < |cmds| ==> SparesRow(cmds[i].0, id)
    requires id !in Run(Step(s, UpdateStateCmd(id, state), now), cmds).graph.nodes
    ensures var t := Step(Run(Step(s, UpdateStateCmd(id, state), now), cmds), QueryCmd([id]), later);
            && id in t.graph.nodes && t.graph.nodes[id].state == state && t.graph.nodes[id].meta == s.db.drvs[id].meta
            && id in t.view && t.view[id].state == state
  {
    var u := Step(s, UpdateStateCmd(id, state), now);
    UpdateTables(s, id, state, now);
    RunKeepsRow(u, cmds, id);
    QueryShowsRow(Run(u, cmds), id, later);
  }

  // ---------------------------------------------------------------- failures

  /** A propagation marks exactly the dependents: node, view entry and row; every other one stays. */
  lemma PropagateShows(s: Service, f: DrvId, n: DrvId)
    ensures var t := Step(s, PropagateFailureCmd(f), 0);
            var hit := n in TransitiveDependents(s.graph.nodes, f);
            && (n in t.graph.nodes <==> n in s.graph.nodes) && (n in t.view <==> n in s.view) && (n in t.db.drvs <==> n in s.db.drvs)
            && (n in s.graph.nodes && hit ==>
                  t.graph.nodes[n] == s.graph.nodes[n].(state := TransitiveFailure, blockers := s.graph.nodes[n].blockers + {f}))
            && (n in s.graph.nodes && !hit ==> t.graph.nodes[n] == s.graph.nodes[n])
            && (n in s.view ==> t.view[n] == if hit then s.view[n].(state := TransitiveFailure) else s.view[n])
            && (n in s.db.drvs ==> t.db.drvs[n] == if hit then s.db.drvs[n].(state := TransitiveFailure) else s.db.drvs[n])
  {
  }

  /** The map entry names exactly the dependents, and no other entry changes. */
  lemma PropagateRecords(s: Service, f: DrvId, now: nat)
    ensures Step(s, PropagateFailureCmd(f), now).graph.failureMap == s.graph.failureMap[f := TransitiveDependents(s.graph.nodes, f)]
    ensures Step(s, PropagateFailureCmd(f), now).graph.failed == s.graph.failed
  {
  }

  /** A clear takes the failure from those its entry names and queues those without another blocker; the rows stay. */
  lemma ClearShows(s: Service, f: DrvId, now: nat, n: DrvId)
    ensures var t := Step(s, ClearFailureCmd(f), now);
            var hit := f in s.graph.failureMap && n in s.graph.failureMap[f] && n in s.graph.nodes;
            var freed := hit && s.graph.nodes[n].blockers <= {f};
            && t.db == s.db && t.graph.failureMap == s.graph.failureMap - {f} && t.graph.failed == s.graph.failed
            && (n in t.graph.nodes <==> n in s.graph.nodes) && (n in t.view <==> n in s.view)
            && (n in s.graph.nodes ==>
                  && t.graph.nodes[n] == s.graph.nodes[n].(state := t.graph.nodes[n].state, blockers := t.graph.nodes[n].blockers)
                  && t.graph.nodes[n].blockers == (if hit then s.graph.nodes[n].blockers - {f} else s.graph.nodes[n].blockers)
                  && t.graph.nodes[n].state == if freed then Queued else s.graph.nodes[n].state)
            && (n in s.view ==> t.view[n] == if freed then s.view[n].(state := Queued) else s.view[n])
  {
    if f !in s.graph.failureMap { assert s.graph.failureMap - {f} == s.graph.failureMap; }
    if n in s.graph.nodes { OnlyBlocker(s.graph.nodes[n].blockers, f); }
  }

  lemma OnlyBlocker(blockers: set<DrvId>, f: DrvId)
    ensures blockers - {f} == {} <==> blockers <= {f}
  {
    assert blockers == (blockers - {f}) + (blockers * {f});
  }

  /** A prune forgets exactly the failures recorded before the cutoff; every other record and entry survives. */
  lemma PruneForgets(s: Service, cutoff: nat, now: nat, f: DrvId)
    ensures var g, h := s.graph, Step(s, PruneCmd(cutoff), now).graph;
            var stale := f in g.failed && g.failed[f] < cutoff;
            && h.nodes == g.nodes && h.order == g.order && h.index == g.index
            && (f in h.failed <==> f in g.failed && !stale) && (f in h.failed ==> h.failed[f] == g.failed[f])
            && (f in h.failureMap <==> f in g.failureMap && !stale) && (f in h.failureMap ==> h.failureMap[f] == g.failureMap[f])
  {
  }

  /** It keeps the tracking entries of exactly the cached drvs, and view and rows as they are. */
  lemma PruneTables(s: Service, cutoff: nat, now: nat, n: DrvId)
    ensures var t := Step(s, PruneCmd(cutoff), now);
            && t.view == s.view && t.db == s.db
            && (n in t.refCounts <==> n in s.refCounts && n in s.graph.nodes) && (n in t.refCounts ==> t.refCounts[n] == s.refCounts[n])
            && (n in t.lastAccessed <==> n in s.lastAccessed && n in s.graph.nodes)
            && (n in t.lastAccessed ==> t.lastAccessed[n] == s.lastAccessed[n])
  {
  }

  // ---------------------------------------------------------------- the stored references

  /** A reload reads every row of the drv as often as it is stored, and no other. */
  lemma {:induction false} RowsAreRead(refs: Refs, id: DrvId, e: (DrvId, DrvId))
    ensures multiset(RefsFrom(refs, id))[e] == if e.0 == id then multiset(refs)[e] else 0
    ensures multiset(RefsTo(refs, id))[e] == if e.1 == id then multiset(refs)[e] else 0
    decreases |refs|
  {
    if refs != [] {
      RowsAreRead(refs[1..], id, e);
      assert refs == [refs[0]] + refs[1..];
    }
  }

  /** A reference is stored once: a row that exists stays as it is, a new one is added. */
  lemma ReferenceIsStoredOnce(s: Service, a: DrvId, b: DrvId)
    ensures InsertRef(s, a, b).db.drvs == s.db.drvs
    ensures (a, b) in s.db.refs ==> InsertRef(s, a, b).db.refs == s.db.refs
    ensures (a, b) !in s.db.refs ==> InsertRef(s, a, b).db.refs == s.db.refs + [(a, b)]
  {
  }

  lemma {:induction false} InsertEachKeepsRefs(s: Service, drvs: seq<Drv>, now: nat)
    ensures InsertEach(s, drvs, now).db.refs == s.db.refs
    decreases |drvs|
  {
    if drvs != [] { InsertEachKeepsRefs(InsertDrv(s, drvs[0], now), drvs[1..], now); }
  }

  lemma {:induction false} LinkEachKeepsDistinct(s: Service, refs: Refs)
    requires NoDuplicates(s.db.refs)
    ensures NoDuplicates(LinkEach(s, refs).db.refs)
    decreases |refs|
  {
    if refs != [] {
      ReferenceIsStoredOnce(s, refs[0].0, refs[0].1);
      LinkEachKeepsDistinct(InsertRef(s, refs[0].0, refs[0].1), refs[1..]);
    }
  }

  /** Over every run no reference is stored twice. */
  lemma {:induction false} RunKeepsRowsDistinct(s: Service, cmds: seq<(Command, nat)>)
    requires NoDuplicates(s.db.refs)
    ensures NoDuplicates(Run(s, cmds).db.refs)
    decreases |cmds|
  {
    if cmds != [] {
      StepKeepsRowsDistinct(s, cmds[0].0, cmds[0].1);
      RunKeepsRowsDistinct(Step(s, cmds[0].0, cmds[0].1), cmds[1..]);
    }
  }

  lemma StepKeepsRowsDistinct(s: Service, cmd: Command, now: nat)
    requires NoDuplicates(s.db.refs)
    ensures NoDuplicates(Step(s, cmd, now).db.refs)
  {
    match cmd
    case UpdateStateCmd(id, state) => UpdateTables(s, id, state, now);
    case InsertDrvsCmd(drvs, refs) =>
      InsertEachKeepsRefs(s, drvs, now);
      LinkEachKeepsDistinct(InsertEach(s, drvs, now), refs);
    case PropagateFailureCmd(_) =>
    case ClearFailureCmd(_) =>
    case QueryCmd(ids) => EnsureAllLoadedKeepsRows(s, ids, now);
    case PruneCmd(_) =>
  }

  // ---------------------------------------------------------------- edges and buckets

  /** A new edge goes to the end of the lists of its cached ends; an edge that is listed changes nothing. */
  lemma LinkAppends(g: Graph, a: DrvId, b: DrvId, n: DrvId)
    requires n in g.nodes
    ensures var h, node := AddEdge(g, a, b), g.nodes[n];
            && n in h.nodes
            && h.nodes[n].dependencies == (if n == a && b !in node.dependencies then node.dependencies + [b] else node.dependencies)
            && h.nodes[n].dependents == (if n == b && a !in node.dependents then node.dependents + [a] else node.dependents)
  {
  }

  /** An insertion adds the drv to the bucket of its state and takes nothing out of any bucket. */
  lemma InsertBuckets(g: Graph, drv: Drv, now: nat, st: BuildState, n: DrvId)
    ensures (st, n) in InsertNode(g, drv, now).graph.index <==> (st, n) in g.index || (n == drv.id && st == drv.state)
  {
  }

  /** An update moves a cached drv from the bucket of its state to that of the new one. */
  lemma UpdateMovesBucket(s: Service, id: DrvId, state: BuildState, now: nat, st: BuildState, n: DrvId)
    ensures (st, n) in Step(s, UpdateStateCmd(id, state), now).graph.index <==>
            if n == id && id in s.graph.nodes
            then st == state || ((st, n) in s.graph.index && st != s.graph.nodes[id].state)
            else (st, n) in s.graph.index
  {
  }

  /** A propagation puts every dependent, cached or not, into the bucket of TransitiveFailure, and takes the cached ones out of theirs. */
  lemma PropagateMovesBuckets(s: Service, f: DrvId, now: nat, st: BuildState, n: DrvId)
    ensures (st, n) in Step(s, PropagateFailureCmd(f), now).graph.index <==>
            if n in TransitiveDependents(s.graph.nodes, f)
            then st == TransitiveFailure || ((st, n) in s.graph.index && !(n in s.graph.nodes && s.graph.nodes[n].state == st))
            else (st, n) in s.graph.index
  {
  }

  /** A clear moves exactly the drvs that it queues into the bucket of Queued. */
  lemma ClearMovesBuckets(s: Service, f: DrvId, now: nat, st: BuildState, n: DrvId)
    ensures var hit := f in s.graph.failureMap && n in s.graph.failureMap[f] && n in s.graph.nodes && s.graph.nodes[n].blockers <= {f};
            (st, n) in Step(s, ClearFailureCmd(f), now).graph.index <==>
            if hit then st == Queued || ((st, n) in s.graph.index && st != s.graph.nodes[n].state)
            else (st, n) in s.graph.index
  {
    if n in s.graph.nodes { OnlyBlocker(s.graph.nodes[n].blockers, f); }
  }
}
