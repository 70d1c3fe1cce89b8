/**
 The graph service as a value: the authoritative graph, the shared view that schedulers
 read, the reference counts, the access times, and the database behind them. Each command
 is one step; database calls succeed.
 */
module Services {
  import opened Wrappers
  import opened Drvs
  import opened Reachability
  import opened Graphs

  /** What the shared view keeps of a node. */
  datatype CachedNode = CachedNode(id: DrvId, meta: Meta, state: BuildState, dependencies: seq<DrvId>)

  function Project(node: Node): CachedNode {
    CachedNode(node.id, node.meta, node.state, node.dependencies)
  }

  type View = map<DrvId, CachedNode>
  type Refs = seq<(DrvId, DrvId)>
  type Counts = map<DrvId, nat>

  datatype Row = Row(meta: Meta, state: BuildState)

  /** Stored drvs by path, and stored (referrer, reference) rows. */
  datatype Database = Database(drvs: map<DrvId, Row>, refs: Refs)

  function StoredDrv(db: Database, id: DrvId): Drv
    requires id in db.drvs
  {
    Drv(id, db.drvs[id].meta, db.drvs[id].state)
  }

  /** The rows in which `id` is the referrer, as the edges that a reload adds. */
  function RefsFrom(refs: Refs, id: DrvId): (r: Refs)
    ensures forall e :: e in r <==> e in refs && e.0 == id
  {
    if refs == [] then []
    else
      assert forall e :: e in refs <==> e == refs[0] || e in refs[1..];
      (if refs[0].0 == id then [refs[0]] else []) + RefsFrom(refs[1..], id)
  }

  /** The rows in which `id` is the reference. */
  function RefsTo(refs: Refs, id: DrvId): (r: Refs)
    ensures forall e :: e in r <==> e in refs && e.1 == id
  {
    if refs == [] then []
    else
      assert forall e :: e in refs <==> e == refs[0] || e in refs[1..];
      (if refs[0].1 == id then [refs[0]] else []) + RefsTo(refs[1..], id)
  }

  datatype Service = Service(
    graph: Graph,
    view: View,
    refCounts: Counts,
    lastAccessed: map<DrvId, nat>,
    db: Database)

  // ---------------------------------------------------------------- reference counts

  function Count(counts: Counts, id: DrvId): nat {
    if id in counts then counts[id] else 0
  }

  function Bump(counts: Counts, id: DrvId): Counts {
    counts[id := Count(counts, id) + 1]
  }

  /** One more for the reference of every edge. */
  function BumpAll(counts: Counts, edges: Refs): Counts
    decreases |edges|
  {
    if edges == [] then counts else BumpAll(Bump(counts, edges[0].1), edges[1..])
  }

  /** One less, not below zero; an entry that reaches zero goes away unless the drv is cached. */
  function Drop(counts: Counts, nodes: Nodes, id: DrvId): Counts {
    if id !in counts then counts
    else
      var count := if counts[id] == 0 then 0 else counts[id] - 1;
      if count == 0 && id !in nodes then counts - {id} else counts[id := count]
  }

  function DropAll(counts: Counts, nodes: Nodes, ids: seq<DrvId>): Counts
    decreases |ids|
  {
    if ids == [] then counts else DropAll(Drop(counts, nodes, ids[0]), nodes, ids[1..])
  }

  // ---------------------------------------------------------------- the cache

  /** Cleans up after the entry that an insertion displaced. */
  function Release(s: Service, evicted: Option<(DrvId, Node)>): Service {
    match evicted
    case None => s
    case Some((id, node)) =>
      s.(refCounts := DropAll(s.refCounts, s.graph.nodes, node.dependencies) - {id},
         lastAccessed := s.lastAccessed - {id},
         view := s.view - {id})
  }

  /** Puts a node without edges into the graph, and accounts for what that displaces. */
  function Admit(s: Service, drv: Drv, now: nat): Service {
    var pushed := Graphs.InsertNode(s.graph, drv, now);
    var released := Release(s.(graph := pushed.graph), pushed.evicted);
    released.(lastAccessed := released.lastAccessed[drv.id := now])
  }

  function Expose(s: Service, id: DrvId): Service
    requires id in s.graph.nodes
  {
    s.(view := s.view[id := Project(s.graph.nodes[id])])
  }

  /** Reloads a drv that is stored but not cached; anything else is left alone. */
  function EnsureLoaded(s: Service, id: DrvId, now: nat): Service {
    if id in s.graph.nodes || id !in s.db.drvs then s
    else
      var admitted := Admit(s, StoredDrv(s.db, id), now);
      var up, down := RefsFrom(s.db.refs, id), RefsTo(s.db.refs, id);
      AddEdgesEffect(admitted.graph, up);
      AddEdgesEffect(AddEdges(admitted.graph, up), down);
      Expose(admitted.(graph := AddEdges(AddEdges(admitted.graph, up), down),
                       refCounts := BumpAll(BumpAll(admitted.refCounts, up), down)), id)
  }

  function EnsureAllLoaded(s: Service, ids: seq<DrvId>, now: nat): Service
    decreases |ids|
  {
    if ids == [] then s else EnsureAllLoaded(EnsureLoaded(s, ids[0], now), ids[1..], now)
  }

  // ---------------------------------------------------------------- inserting

  /** A stored row with the same key wins over the new one. */
  function Store(db: Database, drv: Drv): Database {
    if drv.id in db.drvs then db else db.(drvs := db.drvs[drv.id := Row(drv.meta, drv.state)])
  }

  function StoreRef(db: Database, referrer: DrvId, reference: DrvId): Database {
    if (referrer, reference) in db.refs then db else db.(refs := db.refs + [(referrer, reference)])
  }

  function InsertDrv(s: Service, drv: Drv, now: nat): Service {
    Expose(Admit(s.(db := Store(s.db, drv)), drv, now), drv.id)
  }

  function InsertRef(s: Service, referrer: DrvId, reference: DrvId): Service {
    var g := Graphs.AddEdge(s.graph, referrer, reference);
    s.(graph := g,
       refCounts := Bump(s.refCounts, reference),
       view := if referrer in g.nodes && referrer in s.view
               then s.view[referrer := s.view[referrer].(dependencies := g.nodes[referrer].dependencies)]
               else s.view,
       db := StoreRef(s.db, referrer, reference))
  }

  function InsertEach(s: Service, drvs: seq<Drv>, now: nat): Service
    decreases |drvs|
  {
    if drvs == [] then s else InsertEach(InsertDrv(s, drvs[0], now), drvs[1..], now)
  }

  function LinkEach(s: Service, refs: Refs): Service
    decreases |refs|
  {
    if refs == [] then s else LinkEach(InsertRef(s, refs[0].0, refs[0].1), refs[1..])
  }

  // ---------------------------------------------------------------- states and failures

  function SetViewState(view: View, ids: set<DrvId>, state: BuildState): View {
    map n | n in view :: if n in ids then view[n].(state := state) else view[n]
  }

  function SetStoredState(db: Database, ids: set<DrvId>, state: BuildState): Database {
    db.(drvs := map n | n in db.drvs :: if n in ids then db.drvs[n].(state := state) else db.drvs[n])
  }

  function UpdateState(s: Service, id: DrvId, state: BuildState, now: nat): Service {
    s.(graph := Graphs.UpdateState(s.graph, id, state, now),
       view := SetViewState(s.view, {id}, state),
       db := SetStoredState(s.db, {id}, state))
  }

  ghost function PropagateFailure(s: Service, failed: DrvId): Service {
    var blocked := TransitiveDependents(s.graph.nodes, failed);
    s.(graph := Graphs.PropagateFailure(s.graph, failed),
       view := SetViewState(s.view, blocked, TransitiveFailure),
       db := SetStoredState(s.db, blocked, TransitiveFailure))
  }

  /** The stored states are not changed by a clear. */
  function ClearFailure(s: Service, failed: DrvId): Service {
    s.(graph := Graphs.ClearFailure(s.graph, failed),
       view := SetViewState(s.view, Graphs.Unblocked(s.graph, failed), Queued))
  }

  /** The periodic clean-up of the tracking tables and of old failures. */
  function Prune(s: Service, cutoff: nat): Service {
    s.(graph := EvictStaleFailures(s.graph, cutoff),
       lastAccessed := map n | n in s.lastAccessed && n in s.graph.nodes :: s.lastAccessed[n],
       refCounts := map n | n in s.refCounts && n in s.graph.nodes :: s.refCounts[n])
  }

  // ---------------------------------------------------------------- commands

  /** `Query` stands for every read that first reloads the drvs it is about. */
  datatype Command =
    | UpdateStateCmd(id: DrvId, state: BuildState)
    | InsertDrvsCmd(drvs: seq<Drv>, refs: Refs)
    | PropagateFailureCmd(failed: DrvId)
    | ClearFailureCmd(formerlyFailed: DrvId)
    | QueryCmd(ids: seq<DrvId>)
    | PruneCmd(cutoff: nat)

  ghost function Step(s: Service, cmd: Command, now: nat): Service {
    match cmd
    case UpdateStateCmd(id, state) => UpdateState(s, id, state, now)
    case InsertDrvsCmd(drvs, refs) => LinkEach(InsertEach(s, drvs, now), refs)
    case PropagateFailureCmd(failed) => PropagateFailure(s, failed)
    case ClearFailureCmd(failed) => ClearFailure(s, failed)
    case QueryCmd(ids) => EnsureAllLoaded(s, ids, now)
    case PruneCmd(cutoff) => Prune(s, cutoff)
  }

  /** A run: commands with the time at which each is handled. */
  ghost function Run(s: Service, cmds: seq<(Command, nat)>): Service
    decreases |cmds|
  {
    if cmds == [] then s else Run(Step(s, cmds[0].0, cmds[0].1), cmds[1..])
  }
}
