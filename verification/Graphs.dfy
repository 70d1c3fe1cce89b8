/**
 The build graph as a value: what each operation of `BuildGraph` does to the cached
 nodes, the state index and the failure tracking. The class in BuildGraphs.dfy updates
 its fields step by step and is proved against these functions.
 */
module Graphs {
  import opened Wrappers
  import opened Sequences
  import opened Drvs
  import opened Reachability

  /**
   `order` lists the cached ids from the oldest insertion to the newest: every read of the
   cache is a peek, so recency is insertion order. `index` is the per-state index as a
   relation. `failed` records when a permanent failure was seen.
   */
  datatype RawGraph = RawGraph(
    capacity: nat,
    order: seq<DrvId>,
    nodes: Nodes,
    index: set<(BuildState, DrvId)>,
    failed: map<DrvId, nat>,
    failureMap: map<DrvId, set<DrvId>>)

  /** The cache never exceeds its capacity, and `order` lists exactly the cached ids. */
  ghost predicate CacheOk(g: RawGraph) {
    && 0 < g.capacity
    && |g.order| <= g.capacity
    && NoDuplicates(g.order)
    && forall k :: k in g.order <==> k in g.nodes
  }

  type Graph = g: RawGraph | CacheOk(g) witness RawGraph(1, [], map[], {}, map[], map[])

  function Empty(capacity: nat): (g: Graph)
    requires 0 < capacity
  {
    RawGraph(capacity, [], map[], {}, map[], map[])
  }

  function FromDrv(drv: Drv): Node {
    Node(drv.id, drv.meta, drv.state, [], [], {})
  }

  function Elements(s: seq<DrvId>): set<DrvId> {
    set d | d in s
  }

  // ---------------------------------------------------------------- inserting nodes

  /** `s` without the (only) occurrence of `x`. */
  function Without(s: seq<DrvId>, x: DrvId): (r: seq<DrvId>)
    requires NoDuplicates(s)
    ensures NoDuplicates(r)
    ensures forall y :: y in r <==> y in s && y != x
    ensures |r| == if x in s then |s| - 1 else |s|
  {
    if s == [] then []
    else if s[0] == x then
      assert forall y :: y in s <==> y == x || y in s[1..];
      s[1..]
    else
      assert forall y :: y in s <==> y == s[0] || y in s[1..];
      var rest := Without(s[1..], x);
      assert s[0] !in rest;
      [s[0]] + rest
  }

  /** What the cache's push hands back: the displaced entry, if any. */
  datatype Pushed = Pushed(graph: Graph, evicted: Option<(DrvId, Node)>)

  /**
   Inserting a node. A cached id displaces its own old entry; otherwise a full cache
   displaces its oldest entry. The index entry of a displaced node stays behind.
   */
  function InsertNode(g: Graph, drv: Drv, now: nat): (r: Pushed)
    ensures drv.id in r.graph.nodes
  {
    var node := FromDrv(drv);
    var g1 := g.(index := g.index + {(drv.state, drv.id)},
                 failed := if drv.state == FAILED then g.failed[drv.id := now] else g.failed);
    if drv.id in g.nodes then
      var rest := Without(g.order, drv.id);
      Pushed(g1.(nodes := g.nodes[drv.id := node], order := rest + [drv.id]),
             Some((drv.id, g.nodes[drv.id])))
    else if |g.order| < g.capacity then
      Pushed(g1.(nodes := g.nodes[drv.id := node], order := g.order + [drv.id]), None)
    else
      var victim := g.order[0];
      assert forall k :: k in g.order <==> k == victim || k in g.order[1..];
      Pushed(g1.(nodes := (g.nodes - {victim})[drv.id := node], order := g.order[1..] + [drv.id]),
             Some((victim, g.nodes[victim])))
  }

  // ---------------------------------------------------------------- edges

  function PushNew(s: seq<DrvId>, x: DrvId): (r: seq<DrvId>)
    ensures forall y :: y in r <==> y in s || y == x
    ensures NoDuplicates(s) ==> NoDuplicates(r)
  {
    if x in s then s else s + [x]
  }

  function WithDependency(nodes: Nodes, referrer: DrvId, reference: DrvId): Nodes {
    if referrer in nodes then
      nodes[referrer := nodes[referrer].(dependencies := PushNew(nodes[referrer].dependencies, reference))]
    else nodes
  }

  function WithDependent(nodes: Nodes, referrer: DrvId, reference: DrvId): Nodes {
    if reference in nodes then
      nodes[reference := nodes[reference].(dependents := PushNew(nodes[reference].dependents, referrer))]
    else nodes
  }

  /** `referrer` depends on `reference`; each end is recorded only if that end is cached. */
  function AddEdge(g: Graph, referrer: DrvId, reference: DrvId): Graph {
    g.(nodes := WithDependent(WithDependency(g.nodes, referrer, reference), referrer, reference))
  }

  function AddEdges(g: Graph, edges: seq<(DrvId, DrvId)>): Graph
    decreases |edges|
  {
    if edges == [] then g
    else AddEdges(AddEdge(g, edges[0].0, edges[0].1), edges[1..])
  }

  /** Everything about a node except its two adjacency lists. */
  predicate SameButEdges(a: Node, b: Node) {
    b == a.(dependencies := b.dependencies, dependents := b.dependents)
  }

  /** The adjacency lists of a cached node, extended by the edges of `edges` and by nothing else. */
  ghost predicate Extended(a: DrvId, before: Node, after: Node, edges: seq<(DrvId, DrvId)>) {
    && SameButEdges(before, after)
    && (forall b :: b in after.dependencies <==> b in before.dependencies || (a, b) in edges)
    && (forall b :: b in after.dependents <==> b in before.dependents || (b, a) in edges)
    && (NoDuplicates(before.dependencies) ==> NoDuplicates(after.dependencies))
    && ((forall b :: (a, b) in edges ==> b in before.dependencies) ==> after.dependencies == before.dependencies)
  }

  lemma AddEdgeExtends(g: Graph, referrer: DrvId, reference: DrvId, a: DrvId)
    requires a in g.nodes
    ensures var r := AddEdge(g, referrer, reference);
            a in r.nodes && Extended(a, g.nodes[a], r.nodes[a], [(referrer, reference)])
  {
    assert (referrer, reference) in [(referrer, reference)];
  }

  lemma ExtendedTwice(a: DrvId, x: Node, y: Node, z: Node, edges: seq<(DrvId, DrvId)>)
    requires edges != [] && Extended(a, x, y, [edges[0]]) && Extended(a, y, z, edges[1..])
    ensures Extended(a, x, z, edges)
  {
    assert forall e :: e in edges <==> e == edges[0] || e in edges[1..];
    assert edges[0] in [edges[0]];
  }

  lemma {:induction false} AddEdgesExtends(g: Graph, edges: seq<(DrvId, DrvId)>, a: DrvId)
    requires a in g.nodes
    ensures var r := AddEdges(g, edges); a in r.nodes && Extended(a, g.nodes[a], r.nodes[a], edges)
    decreases |edges|
  {
    if edges != [] {
      var g1 := AddEdge(g, edges[0].0, edges[0].1);
      AddEdgeExtends(g, edges[0].0, edges[0].1, a);
      AddEdgesExtends(g1, edges[1..], a);
      ExtendedTwice(a, g.nodes[a], g1.nodes[a], AddEdges(g, edges).nodes[a], edges);
    }
  }

  lemma {:induction false} AddEdgesFrame(g: Graph, edges: seq<(DrvId, DrvId)>)
    ensures var r := AddEdges(g, edges); r == g.(nodes := r.nodes) && r.nodes.Keys == g.nodes.Keys
    decreases |edges|
  {
    if edges != [] { AddEdgesFrame(AddEdge(g, edges[0].0, edges[0].1), edges[1..]); }
  }

  /** A batch of edges only extends the adjacency lists of cached ends, and only by those edges. */
  lemma AddEdgesEffect(g: Graph, edges: seq<(DrvId, DrvId)>)
    ensures var r := AddEdges(g, edges);
            && r == g.(nodes := r.nodes)
            && r.nodes.Keys == g.nodes.Keys
            && forall a :: a in g.nodes ==> Extended(a, g.nodes[a], r.nodes[a], edges)
  {
    AddEdgesFrame(g, edges);
    forall a | a in g.nodes ensures Extended(a, g.nodes[a], AddEdges(g, edges).nodes[a], edges) {
      AddEdgesExtends(g, edges, a);
    }
  }

  // ---------------------------------------------------------------- states

  /**
   The state index after the cached ids of `moved` leave the bucket of their current state
   and `added` joins the bucket of `target`.
   */
  function Reindex(index: set<(BuildState, DrvId)>, nodes: Nodes, moved: set<DrvId>,
                   added: set<DrvId>, target: BuildState): (r: set<(BuildState, DrvId)>)
    ensures forall s, d :: (s, d) in r <==>
              (d in added && s == target)
              || ((s, d) in index && !(d in moved && d in nodes && nodes[d].state == s))
  {
    (set p | p in index && !(p.1 in moved && p.1 in nodes && nodes[p.1].state == p.0))
    + (set d | d in added :: (target, d))
  }

  function UpdateState(g: Graph, id: DrvId, state: BuildState, now: nat): Graph {
    if id !in g.nodes then g
    else
      g.(nodes := g.nodes[id := g.nodes[id].(state := state)],
         index := Reindex(g.index, g.nodes, {id}, {id}, state),
         failed := if state == FAILED then g.failed[id := now]
                   else if state == SUCCEEDED then g.failed - {id}
                   else g.failed)
  }

  predicate IsBuildable(g: Graph, id: DrvId) {
    id in g.nodes
    && forall i :: 0 <= i < |g.nodes[id].dependencies| ==>
         var dep := g.nodes[id].dependencies[i];
         dep in g.nodes && g.nodes[dep].state == SUCCEEDED
  }

  // ---------------------------------------------------------------- failures

  function Block(node: Node, failure: DrvId): Node {
    node.(state := TransitiveFailure, blockers := node.blockers + {failure})
  }

  /** Blocks the cached members of `ids`; ids that are not cached still enter the index. */
  function BlockAll(g: Graph, failure: DrvId, ids: set<DrvId>): Graph {
    g.(nodes := map n | n in g.nodes :: if n in ids then Block(g.nodes[n], failure) else g.nodes[n],
       index := Reindex(g.index, g.nodes, ids, ids, TransitiveFailure))
  }

  /** Blocks every strict transitive dependent of `failure` and remembers them under it. */
  ghost function PropagateFailure(g: Graph, failure: DrvId): Graph {
    var blocked := TransitiveDependents(g.nodes, failure);
    BlockAll(g, failure, blocked).(failureMap := g.failureMap[failure := blocked])
  }

  function Unblock(node: Node, failure: DrvId): Node {
    var rest := node.blockers - {failure};
    if rest == {} then node.(blockers := rest, state := Queued) else node.(blockers := rest)
  }

  /** The cached members of `ids` that nothing but `failure` blocks. */
  function Freed(nodes: Nodes, failure: DrvId, ids: set<DrvId>): set<DrvId> {
    set n | n in ids && n in nodes && nodes[n].blockers - {failure} == {}
  }

  function UnblockAll(g: Graph, failure: DrvId, ids: set<DrvId>): Graph {
    var freed := Freed(g.nodes, failure, ids);
    g.(nodes := map n | n in g.nodes :: if n in ids then Unblock(g.nodes[n], failure) else g.nodes[n],
       index := Reindex(g.index, g.nodes, freed, freed, Queued))
  }

  function ClearFailure(g: Graph, failure: DrvId): Graph {
    if failure !in g.failureMap then g
    else UnblockAll(g, failure, g.failureMap[failure]).(failureMap := g.failureMap - {failure})
  }

  /** The drvs that clearing `failure` reports as unblocked. */
  function Unblocked(g: Graph, failure: DrvId): set<DrvId> {
    if failure !in g.failureMap then {} else Freed(g.nodes, failure, g.failureMap[failure])
  }

  /** Forgets failures seen before `cutoff`. The blockers of the nodes are left alone. */
  function EvictStaleFailures(g: Graph, cutoff: nat): Graph {
    var stale := set f | f in g.failed && g.failed[f] < cutoff;
    g.(failed := g.failed - stale, failureMap := g.failureMap - stale)
  }
}
