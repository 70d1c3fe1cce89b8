/**
 Runs of graph operations: every command of the service, and startup, changes the graph by a
 sequence of these. What each operation keeps, every run keeps.
 */
module GraphOps {
  import opened Drvs
  import opened Reachability
  import opened Graphs

  datatype Op =
    | Insert(drv: Drv, now: nat)
    | Link(referrer: DrvId, reference: DrvId)
    | SetState(id: DrvId, state: BuildState, now: nat)
    | Propagate(failure: DrvId)
    | Clear(failure: DrvId)
    | Forget(cutoff: nat)

  ghost function Apply(g: Graph, op: Op): Graph {
    match op
    case Insert(drv, now) => InsertNode(g, drv, now).graph
    case Link(referrer, reference) => AddEdge(g, referrer, reference)
    case SetState(id, state, now) => UpdateState(g, id, state, now)
    case Propagate(failure) => PropagateFailure(g, failure)
    case Clear(failure) => ClearFailure(g, failure)
    case Forget(cutoff) => EvictStaleFailures(g, cutoff)
  }

  ghost function RunOps(g: Graph, ops: seq<Op>): Graph
    decreases |ops|
  {
    if ops == [] then g else RunOps(Apply(g, ops[0]), ops[1..])
  }

  /** Every operation meets `q` in the graph it is applied to. */
  ghost predicate Along(q: (Graph, Op) -> bool, g: Graph, ops: seq<Op>)
    decreases |ops|
  {
    ops != [] ==> q(g, ops[0]) && Along(q, Apply(g, ops[0]), ops[1..])
  }

  /** Whatever each operation that meets `q` keeps, a run of such operations keeps. */
  lemma {:induction false} RunOpsKeep(p: Graph -> bool, q: (Graph, Op) -> bool, g: Graph, ops: seq<Op>)
    requires p(g) && Along(q, g, ops)
    requires forall h, op :: p(h) && q(h, op) ==> p(Apply(h, op))
    ensures p(RunOps(g, ops))
    decreases |ops|
  {
    if ops != [] { RunOpsKeep(p, q, Apply(g, ops[0]), ops[1..]); }
  }

  lemma {:induction false} RunOpsConcat(g: Graph, a: seq<Op>, b: seq<Op>)
    ensures RunOps(g, a + b) == RunOps(RunOps(g, a), b)
    decreases |a|
  {
    if a == [] {
      assert a + b == b;
    } else {
      assert (a + b)[0] == a[0] && (a + b)[1..] == a[1..] + b;
      RunOpsConcat(Apply(g, a[0]), a[1..], b);
    }
  }

  lemma {:induction false} AlongConcat(q: (Graph, Op) -> bool, g: Graph, a: seq<Op>, b: seq<Op>)
    requires Along(q, g, a) && Along(q, RunOps(g, a), b)
    ensures Along(q, g, a + b)
    decreases |a|
  {
    if a == [] {
      assert a + b == b;
    } else {
      assert (a + b)[0] == a[0] && (a + b)[1..] == a[1..] + b;
      AlongConcat(q, Apply(g, a[0]), a[1..], b);
    }
  }

  function Both(q: (Graph, Op) -> bool, r: (Graph, Op) -> bool): (Graph, Op) -> bool {
    (g: Graph, op: Op) => q(g, op) && r(g, op)
  }

  lemma {:induction false} AlongBoth(q: (Graph, Op) -> bool, r: (Graph, Op) -> bool, g: Graph, ops: seq<Op>)
    requires Along(q, g, ops) && Along(r, g, ops)
    ensures Along(Both(q, r), g, ops)
    decreases |ops|
  {
    if ops != [] { AlongBoth(q, r, Apply(g, ops[0]), ops[1..]); }
  }

  /** A condition on the operations alone holds along any run of them. */
  lemma {:induction false} AlongAll(q: (Graph, Op) -> bool, g: Graph, ops: seq<Op>)
    requires forall h, i :: 0 <= i < |ops| ==> q(h, ops[i])
    ensures Along(q, g, ops)
    decreases |ops|
  {
    if ops != [] {
      forall h, i | 0 <= i < |ops[1..]| ensures q(h, ops[1..][i]) { assert ops[1..][i] == ops[i + 1]; }
      AlongAll(q, Apply(g, ops[0]), ops[1..]);
    }
  }

  // ---------------------------------------------------------------- conditions on operations

  predicate Anything(g: Graph, op: Op) {
    true
  }

  /** Below capacity: inserts are fresh and fit, and both ends of a new edge are cached. */
  predicate Allowed(g: Graph, op: Op) {
    match op
    case Insert(drv, _) => drv.id !in g.nodes && |g.order| < g.capacity
    case Link(referrer, reference) => referrer in g.nodes && reference in g.nodes
    case _ => true
  }

  predicate Remembering(g: Graph, op: Op) {
    !op.Forget?
  }

  /** The state of a drv is set directly only while nothing blocks it. */
  predicate Sparing(g: Graph, op: Op) {
    op.SetState? && op.id in g.nodes ==> g.nodes[op.id].blockers == {}
  }

  // ---------------------------------------------------------------- batches

  function Inserts(drvs: seq<Drv>, now: nat): seq<Op> {
    seq(|drvs|, i requires 0 <= i < |drvs| => Insert(drvs[i], now))
  }

  function Links(edges: seq<(DrvId, DrvId)>): seq<Op> {
    seq(|edges|, i requires 0 <= i < |edges| => Link(edges[i].0, edges[i].1))
  }

  function Propagations(failures: seq<DrvId>): seq<Op> {
    seq(|failures|, i requires 0 <= i < |failures| => Propagate(failures[i]))
  }

  lemma {:induction false} LinksAddEdges(g: Graph, edges: seq<(DrvId, DrvId)>)
    ensures RunOps(g, Links(edges)) == AddEdges(g, edges)
    decreases |edges|
  {
    if edges != [] {
      assert Links(edges)[1..] == Links(edges[1..]);
      LinksAddEdges(AddEdge(g, edges[0].0, edges[0].1), edges[1..]);
    }
  }

  lemma {:induction false} LinksAllowed(g: Graph, edges: seq<(DrvId, DrvId)>)
    requires forall e :: e in edges ==> e.0 in g.nodes && e.1 in g.nodes
    ensures Along(Allowed, g, Links(edges))
    decreases |edges|
  {
    if edges != [] {
      assert Links(edges)[1..] == Links(edges[1..]) && edges[0] in edges;
      LinksAllowed(AddEdge(g, edges[0].0, edges[0].1), edges[1..]);
    }
  }

  /** Distinct drvs that are not cached and fit. */
  ghost predicate Fresh(g: Graph, drvs: seq<Drv>) {
    && |g.order| + |drvs| <= g.capacity
    && (forall i, j :: 0 <= i < j < |drvs| ==> drvs[i].id != drvs[j].id)
    && (forall i :: 0 <= i < |drvs| ==> drvs[i].id !in g.nodes)
  }

  lemma {:induction false} InsertsAllowed(g: Graph, drvs: seq<Drv>, now: nat)
    requires Fresh(g, drvs)
    ensures Along(Allowed, g, Inserts(drvs, now))
    decreases |drvs|
  {
    if drvs != [] {
      assert Inserts(drvs, now)[1..] == Inserts(drvs[1..], now);
      assert Fresh(InsertNode(g, drvs[0], now).graph, drvs[1..]);
      InsertsAllowed(InsertNode(g, drvs[0], now).graph, drvs[1..], now);
    }
  }
}
