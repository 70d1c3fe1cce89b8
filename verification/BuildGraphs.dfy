/**
 The mutable build graph. Each method updates the fields in place, one step at a time,
 and is proved against the value-level operation of module `Graphs`; the traversals are
 proved against reachability.
 */
module BuildGraphs {
  import opened Wrappers
  import opened Drvs
  import opened Reachability
  import opened Graphs

  /** The per-state index as a relation; a missing bucket and an empty one are the same. */
  ghost function Relation(byState: map<BuildState, set<DrvId>>): (r: set<(BuildState, DrvId)>)
    ensures forall s, d :: (s, d) in r <==> s in byState && d in byState[s]
  {
    set s, d | s in byState && d in byState[s] :: (s, d)
  }

  function CachedSeeds(nodes: Nodes, seeds: seq<DrvId>): set<DrvId> {
    set s | s in seeds && s in nodes
  }

  /** The union, over the cached seeds, of the seed and its transitive dependents. */
  ghost function ReverseReachable(nodes: Nodes, seeds: seq<DrvId>): set<DrvId> {
    ReachSet(nodes, CachedSeeds(nodes, seeds))
  }

  /** Exactly the cached seeds and what depends on one of them. */
  lemma ReverseReachableIff(nodes: Nodes, seeds: seq<DrvId>, n: DrvId)
    ensures n in ReverseReachable(nodes, seeds) <==> exists s :: s in seeds && s in nodes && Reaches(nodes, s, n)
  {
    if n in ReverseReachable(nodes, seeds) {
      var s :| s in CachedSeeds(nodes, seeds) && Reaches(nodes, s, n);
      assert s in seeds && s in nodes;
    }
    if s :| s in seeds && s in nodes && Reaches(nodes, s, n) { assert s in CachedSeeds(nodes, seeds); }
  }

  function DirectDependents(nodes: Nodes, id: DrvId): set<DrvId> {
    if id in nodes then Elements(nodes[id].dependents) else {}
  }

  /** Every visited drv that left the queue has had its dependents visited. */
  ghost predicate Expanded(nodes: Nodes, visited: set<DrvId>, queue: seq<DrvId>) {
    forall a, b :: a in visited && a !in queue && Edge(nodes, a, b) ==> b in visited
  }

  /** Expanding the head of the queue keeps every dequeued drv expanded. */
  lemma ExpandedStep(nodes: Nodes, visited: set<DrvId>, queue: seq<DrvId>, visited': set<DrvId>, queue': seq<DrvId>)
    requires queue != [] && Expanded(nodes, visited, queue)
    requires visited' == visited + DirectDependents(nodes, queue[0])
    requires forall d :: d in queue' <==> d in queue[1..] || d in visited' - visited
    ensures Expanded(nodes, visited', queue')
  {
    assert forall d :: d in queue <==> d == queue[0] || d in queue[1..];
    forall a, b | a in visited' && a !in queue' && Edge(nodes, a, b) ensures b in visited' {
      assert a in visited && a !in queue[1..];
    }
  }

  class BuildGraph {
    const capacity: nat
    var nodes: Nodes
    var order: seq<DrvId>
    var byState: map<BuildState, set<DrvId>>
    var failedDrvs: map<DrvId, nat>
    var failureMap: map<DrvId, set<DrvId>>

    ghost function Fields(): RawGraph
      reads this
    {
      RawGraph(capacity, order, nodes, Relation(byState), failedDrvs, failureMap)
    }

    ghost predicate Valid()
      reads this
    {
      CacheOk(Fields())
    }

    ghost function Model(): Graph
      requires Valid()
      reads this
    {
      Fields()
    }

    constructor (capacity: nat)
      requires 0 < capacity
      ensures Valid() && Model() == Empty(capacity)
    {
      this.capacity := capacity;
      nodes, order, byState, failedDrvs, failureMap := map[], [], map[], map[], map[];
    }

    // -------------------------------------------------------------- the state index

    method AddToBucket(state: BuildState, id: DrvId)
      requires Valid()
      modifies this`byState
      ensures Valid() && Model() == old(Model()).(index := old(Model()).index + {(state, id)})
    {
      byState := byState[state := (if state in byState then byState[state] else {}) + {id}];
      assert Relation(byState) == old(Relation(byState)) + {(state, id)};
    }

    method RemoveFromBucket(state: BuildState, id: DrvId)
      requires Valid()
      modifies this`byState
      ensures Valid() && Model() == old(Model()).(index := old(Model()).index - {(state, id)})
    {
      if state in byState {
        byState := byState[state := byState[state] - {id}];
      }
      assert Relation(byState) == old(Relation(byState)) - {(state, id)};
    }

    // -------------------------------------------------------------- nodes and edges

    method InsertNode(drv: Drv, now: nat) returns (evicted: Option<(DrvId, Node)>)
      requires Valid()
      modifies this
      ensures Valid()
      ensures Pushed(Model(), evicted) == Graphs.InsertNode(old(Model()), drv, now)
    {
      AddToBucket(drv.state, drv.id);
      if drv.state == FAILED {
        failedDrvs := failedDrvs[drv.id := now];
      }
      var node := FromDrv(drv);
      if drv.id in nodes {
        evicted := Some((drv.id, nodes[drv.id]));
        order := Without(order, drv.id) + [drv.id];
      } else if |order| < capacity {
        evicted := None;
        order := order + [drv.id];
      } else {
        evicted := Some((order[0], nodes[order[0]]));
        nodes := nodes - {order[0]};
        order := order[1..] + [drv.id];
      }
      nodes := nodes[drv.id := node];
      ghost var r := Graphs.InsertNode(old(Model()), drv, now);
      assert Fields() == r.graph;
    }

    method AddEdge(referrer: DrvId, reference: DrvId)
      requires Valid()
      modifies this`nodes
      ensures Valid() && Model() == Graphs.AddEdge(old(Model()), referrer, reference)
    {
      if referrer in nodes && reference !in nodes[referrer].dependencies {
        nodes := nodes[referrer := nodes[referrer].(dependencies := nodes[referrer].dependencies + [reference])];
      }
      assert nodes == WithDependency(old(nodes), referrer, reference);
      if reference in nodes && referrer !in nodes[reference].dependents {
        nodes := nodes[reference := nodes[reference].(dependents := nodes[reference].dependents + [referrer])];
      }
      assert nodes == Graphs.AddEdge(old(Model()), referrer, reference).nodes;
    }

    method UpdateState(id: DrvId, state: BuildState, now: nat)
      requires Valid()
      modifies this
      ensures Valid() && Model() == Graphs.UpdateState(old(Model()), id, state, now)
    {
      if id !in nodes { return; }
      var oldState := nodes[id].state;
      nodes := nodes[id := nodes[id].(state := state)];
      RemoveFromBucket(oldState, id);
      AddToBucket(state, id);
      if state == FAILED {
        failedDrvs := failedDrvs[id := now];
      } else if state == SUCCEEDED {
        failedDrvs := failedDrvs - {id};
      }
      ReindexOne(old(Model()).index, old(nodes), id, state);
    }

    method IsBuildable(id: DrvId) returns (buildable: bool)
      requires Valid()
      ensures buildable == Graphs.IsBuildable(Model(), id)
    {
      if id !in nodes { return false; }
      for i := 0 to |nodes[id].dependencies|
        invariant forall j :: 0 <= j < i ==>
          nodes[id].dependencies[j] in nodes && nodes[nodes[id].dependencies[j]].state == SUCCEEDED
      {
        var dep := nodes[id].dependencies[i];
        if dep !in nodes || nodes[dep].state != SUCCEEDED { return false; }
      }
      return true;
    }

    // -------------------------------------------------------------- traversals

    /** Enqueues the dependents that were not visited before. */
    method Expand(dependents: seq<DrvId>, visited: set<DrvId>, queue: seq<DrvId>)
      returns (visited': set<DrvId>, queue': seq<DrvId>)
      ensures visited' == visited + Elements(dependents)
      ensures queue <= queue' && forall d :: d in queue' <==> d in queue || d in visited' - visited
      ensures visited' == visited ==> queue' == queue
    {
      visited', queue' := visited, queue;
      for i := 0 to |dependents|
        invariant visited' == visited + Elements(dependents[..i])
        invariant queue <= queue' && forall d :: d in queue' <==> d in queue || d in visited' - visited
        invariant visited' == visited ==> queue' == queue
      {
        if dependents[i] !in visited' {
          visited', queue' := visited' + {dependents[i]}, queue' + [dependents[i]];
        }
        assert dependents[..i + 1] == dependents[..i] + [dependents[i]];
      }
      assert dependents[..|dependents|] == dependents;
    }

    /**
     The breadth-first loop. It stays within any closed set around the start and ends with a
     closed set, which makes the result the least one.
     */
    method Explore(start: set<DrvId>, startQueue: seq<DrvId>, ghost within: set<DrvId>) returns (visited: set<DrvId>)
      requires forall d :: d in startQueue <==> d in start
      requires start <= within && ClosedUnderEdges(nodes, within)
      ensures start <= visited <= within && ClosedUnderEdges(nodes, visited)
    {
      visited := start;
      var queue := startQueue;
      while queue != []
        invariant start <= visited <= within
        invariant forall d :: d in queue ==> d in visited
        invariant Expanded(nodes, visited, queue)
        decreases within - visited, |queue|
      {
        var current, rest := queue[0], queue[1..];
        if current in nodes {
          var visited', queue' := Expand(nodes[current].dependents, visited, rest);
          assert forall d :: d in nodes[current].dependents ==> Edge(nodes, current, d);
          ExpandedStep(nodes, visited, queue, visited', queue');
          visited, queue := visited', queue';
        } else {
          ExpandedStep(nodes, visited, queue, visited, rest);
          queue := rest;
        }
      }
    }

    method GetAllTransitiveDependents(id: DrvId) returns (dependents: set<DrvId>)
      ensures dependents == TransitiveDependents(nodes, id)
    {
      ReachSetClosed(nodes, {id});
      var visited := Explore({id}, [id], ReachSet(nodes, {id}));
      ReachSetLeast(nodes, {id}, visited);
      dependents := visited - {id};
      ReachSetOfOne(nodes, id);
    }

    method ReverseReachableFromSet(seeds: seq<DrvId>) returns (visited: set<DrvId>)
      ensures visited == ReverseReachable(nodes, seeds)
    {
      var start, queue := {}, [];
      for i := 0 to |seeds|
        invariant forall d :: d in queue <==> d in start
        invariant forall d :: d in start <==> d in seeds[..i] && d in nodes
      {
        if seeds[i] in nodes && seeds[i] !in start {
          start, queue := start + {seeds[i]}, queue + [seeds[i]];
        }
        assert seeds[..i + 1] == seeds[..i] + [seeds[i]];
      }
      assert seeds[..|seeds|] == seeds;
      assert start == CachedSeeds(nodes, seeds);
      ReachSetClosed(nodes, start);
      visited := Explore(start, queue, ReachSet(nodes, start));
      ReachSetLeast(nodes, start, visited);
    }

    method BlastRadiusPerSeed(seeds: seq<DrvId>) returns (radii: map<DrvId, nat>)
      ensures forall s :: s in radii <==> s in seeds
      ensures forall s :: s in seeds ==>
        radii[s] == if s in nodes then |TransitiveDependents(nodes, s)| else 0
    {
      radii := map[];
      for i := 0 to |seeds|
        invariant forall s :: s in radii <==> s in seeds[..i]
        invariant forall s :: s in radii ==>
          radii[s] == if s in nodes then |TransitiveDependents(nodes, s)| else 0
      {
        var count := 0;
        if seeds[i] in nodes {
          var dependents := GetAllTransitiveDependents(seeds[i]);
          count := |dependents|;
        }
        radii := radii[seeds[i] := count];
        assert seeds[..i + 1] == seeds[..i] + [seeds[i]];
      }
      assert seeds[..|seeds|] == seeds;
    }

    // -------------------------------------------------------------- failures

    method BlockDrv(failed: DrvId, id: DrvId)
      requires Valid()
      modifies this`nodes, this`byState
      ensures Valid() && Model() == BlockOne(old(Model()), failed, id)
    {
      if id in nodes {
        var oldState := nodes[id].state;
        nodes := nodes[id := Block(nodes[id], failed)];
        RemoveFromBucket(oldState, id);
      }
      AddToBucket(TransitiveFailure, id);
    }

    method PropagateFailure(failed: DrvId) returns (blocked: set<DrvId>)
      requires Valid()
      modifies this
      ensures Valid() && Model() == Graphs.PropagateFailure(old(Model()), failed)
      ensures blocked == TransitiveDependents(old(nodes), failed)
    {
      blocked := GetAllTransitiveDependents(failed);
      var todo := blocked;
      BlockNone(Model(), failed);
      assert blocked - todo == {};
      while todo != {}
        invariant todo <= blocked
        invariant Valid() && Model() == BlockAll(old(Model()), failed, blocked - todo)
      {
        var id :| id in todo;
        BlockAllStep(old(Model()), failed, blocked - todo, id);
        assert blocked - (todo - {id}) == (blocked - todo) + {id};
        BlockDrv(failed, id);
        todo := todo - {id};
      }
      assert blocked - todo == blocked;
      failureMap := failureMap[failed := blocked];
    }

    method UnblockDrv(failed: DrvId, id: DrvId) returns (freed: bool)
      requires Valid()
      modifies this`nodes, this`byState
      ensures Valid() && Model() == UnblockOne(old(Model()), failed, id)
      ensures freed == (id in Freed(old(nodes), failed, {id}))
    {
      freed := false;
      if id in nodes {
        var rest := nodes[id].blockers - {failed};
        if rest == {} {
          var oldState := nodes[id].state;
          nodes := nodes[id := nodes[id].(blockers := rest, state := Queued)];
          RemoveFromBucket(oldState, id);
          AddToBucket(Queued, id);
          freed := true;
        } else {
          nodes := nodes[id := nodes[id].(blockers := rest)];
        }
      }
    }

    method ClearFailure(failed: DrvId) returns (unblocked: set<DrvId>)
      requires Valid()
      modifies this
      ensures Valid() && Model() == Graphs.ClearFailure(old(Model()), failed)
      ensures unblocked == Graphs.Unblocked(old(Model()), failed)
    {
      unblocked := {};
      if failed !in failureMap { return; }
      var blocked := failureMap[failed];
      failureMap := failureMap - {failed};
      ghost var start := Model();
      var todo := blocked;
      UnblockNone(start, failed);
      assert blocked - todo == {};
      while todo != {}
        invariant todo <= blocked
        invariant Valid() && Model() == UnblockAll(start, failed, blocked - todo)
        invariant unblocked == Freed(start.nodes, failed, blocked - todo)
      {
        var id :| id in todo;
        UnblockAllStep(start, failed, blocked - todo, id);
        assert blocked - (todo - {id}) == (blocked - todo) + {id};
        assert id in nodes ==> nodes[id] == start.nodes[id];
        var freed := UnblockDrv(failed, id);
        if freed { unblocked := unblocked + {id}; }
        todo := todo - {id};
      }
      assert blocked - todo == blocked;
    }

    method EvictStaleFailures(cutoff: nat) returns (count: nat)
      requires Valid()
      modifies this
      ensures Valid() && Model() == Graphs.EvictStaleFailures(old(Model()), cutoff)
      ensures count == |old(failedDrvs)| - |failedDrvs|
    {
      var stale := set f | f in failedDrvs && failedDrvs[f] < cutoff;
      count := |stale|;
      failedDrvs := failedDrvs - stale;
      failureMap := failureMap - stale;
      assert failedDrvs.Keys == old(failedDrvs).Keys - stale;
    }
  }

  // ---------------------------------------------------------------- one drv at a time

  lemma ReindexOne(index: set<(BuildState, DrvId)>, nodes: Nodes, id: DrvId, target: BuildState)
    requires id in nodes
    ensures Reindex(index, nodes, {id}, {id}, target) == index - {(nodes[id].state, id)} + {(target, id)}
  {
  }

  ghost function BlockOne(g: Graph, failure: DrvId, id: DrvId): Graph {
    g.(nodes := if id in g.nodes then g.nodes[id := Block(g.nodes[id], failure)] else g.nodes,
       index := (if id in g.nodes then g.index - {(g.nodes[id].state, id)} else g.index) + {(TransitiveFailure, id)})
  }

  lemma BlockNone(g: Graph, failure: DrvId)
    ensures BlockAll(g, failure, {}) == g
  {
    assert BlockAll(g, failure, {}).nodes == g.nodes;
    assert BlockAll(g, failure, {}).index == g.index;
  }

  lemma BlockAllStep(g: Graph, failure: DrvId, done: set<DrvId>, id: DrvId)
    requires id !in done
    ensures BlockAll(g, failure, done + {id}) == BlockOne(BlockAll(g, failure, done), failure, id)
  {
    var l, r := BlockAll(g, failure, done + {id}), BlockOne(BlockAll(g, failure, done), failure, id);
    assert l.nodes == r.nodes;
    assert l.index == r.index;
  }

  ghost function UnblockOne(g: Graph, failure: DrvId, id: DrvId): Graph {
    if id !in g.nodes then g
    else
      g.(nodes := g.nodes[id := Unblock(g.nodes[id], failure)],
         index := if g.nodes[id].blockers - {failure} == {}
                  then g.index - {(g.nodes[id].state, id)} + {(Queued, id)} else g.index)
  }

  lemma UnblockNone(g: Graph, failure: DrvId)
    ensures UnblockAll(g, failure, {}) == g
  {
    assert UnblockAll(g, failure, {}).nodes == g.nodes;
    assert UnblockAll(g, failure, {}).index == g.index;
  }

  lemma ReindexStep(index: set<(BuildState, DrvId)>, nodes: Nodes, done: set<DrvId>, id: DrvId, target: BuildState)
    requires id !in done && id in nodes
    ensures Reindex(index, nodes, done + {id}, done + {id}, target)
         == Reindex(index, nodes, done, done, target) - {(nodes[id].state, id)} + {(target, id)}
  {
  }

  lemma UnblockAllStep(g: Graph, failure: DrvId, done: set<DrvId>, id: DrvId)
    requires id !in done
    ensures UnblockAll(g, failure, done + {id}) == UnblockOne(UnblockAll(g, failure, done), failure, id)
    ensures Freed(g.nodes, failure, done + {id}) == Freed(g.nodes, failure, done) + Freed(g.nodes, failure, {id})
  {
    var l, r := UnblockAll(g, failure, done + {id}), UnblockOne(UnblockAll(g, failure, done), failure, id);
    assert l.nodes == r.nodes;
    var before, after := Freed(g.nodes, failure, done), Freed(g.nodes, failure, done + {id});
    assert after == before + Freed(g.nodes, failure, {id});
    if id in Freed(g.nodes, failure, {id}) {
      ReindexStep(g.index, g.nodes, before, id, Queued);
      assert after == before + {id};
    } else {
      assert after == before;
    }
  }

  // ---------------------------------------------------------------- blast radius

  /** Sum over the cached seeds of one more than the seed's radius. */
  ghost function RadiusSum(nodes: Nodes, seeds: seq<DrvId>): nat {
    if seeds == [] then 0
    else (if seeds[0] in nodes then |TransitiveDependents(nodes, seeds[0])| + 1 else 0)
         + RadiusSum(nodes, seeds[1..])
  }

  /** One seed and its dependents are exactly radius + 1 drvs. */
  lemma SeedContribution(nodes: Nodes, seed: DrvId)
    requires seed in nodes
    ensures var one := ReverseReachable(nodes, [seed]);
            one == TransitiveDependents(nodes, seed) + {seed} && |one| == |TransitiveDependents(nodes, seed)| + 1
  {
    assert CachedSeeds(nodes, [seed]) == {seed};
    ReachSetOfOne(nodes, seed);
    ReachSetClosed(nodes, {seed});
  }

  lemma ReverseReachableCons(nodes: Nodes, seeds: seq<DrvId>)
    requires seeds != []
    ensures ReverseReachable(nodes, seeds) == ReverseReachable(nodes, seeds[..1]) + ReverseReachable(nodes, seeds[1..])
  {
    var a, b := CachedSeeds(nodes, seeds[..1]), CachedSeeds(nodes, seeds[1..]);
    assert seeds == seeds[..1] + seeds[1..];
    assert CachedSeeds(nodes, seeds) == a + b;
    forall n ensures ReachedFrom(nodes, a + b, n) <==> ReachedFrom(nodes, a, n) || ReachedFrom(nodes, b, n) {
      ReachedFromEither(nodes, a, b, n);
    }
  }

  /** The union of the impacts is at most the sum of them all. */
  lemma {:induction false} BlastRadiusUpperBound(nodes: Nodes, seeds: seq<DrvId>)
    ensures |ReverseReachable(nodes, seeds)| <= RadiusSum(nodes, seeds)
  {
    if seeds == [] {
      assert ReverseReachable(nodes, seeds) == {};
    } else {
      BlastRadiusUpperBound(nodes, seeds[1..]);
      ReverseReachableCons(nodes, seeds);
      var one, rest := ReverseReachable(nodes, seeds[..1]), ReverseReachable(nodes, seeds[1..]);
      UnionSize(one, rest);
      assert seeds[..1] == [seeds[0]];
      if seeds[0] in nodes {
        SeedContribution(nodes, seeds[0]);
      } else {
        assert CachedSeeds(nodes, [seeds[0]]) == {};
        assert one == {};
      }
    }
  }

  /** The union of the impacts is at least each single one. */
  lemma BlastRadiusLowerBound(nodes: Nodes, seeds: seq<DrvId>, seed: DrvId)
    requires seed in seeds && seed in nodes
    ensures |TransitiveDependents(nodes, seed)| + 1 <= |ReverseReachable(nodes, seeds)|
  {
    SeedContribution(nodes, seed);
    var one, all := ReverseReachable(nodes, [seed]), ReverseReachable(nodes, seeds);
    assert one <= all by {
      forall n | n in one ensures n in all {
        assert Reaches(nodes, seed, n);
        assert seed in CachedSeeds(nodes, seeds);
      }
    }
    assert all == one + (all - one);
  }

  lemma UnionSize<T>(a: set<T>, b: set<T>)
    ensures |a + b| <= |a| + |b|
  {
    assert a + b == a + (b - a);
    assert b == (b - a) + (b * a);
  }
}
