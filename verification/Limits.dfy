/**
 Where the code stops short of what its comments say, each with the exact condition: an
 eviction does not look at the state, and a clear neither restores the earlier states nor
 writes to the stored ones.
 */
module Limits {
  import opened Drvs
  import opened Reachability
  import opened Graphs
  import opened Services

  // ---------------------------------------------------------------- eviction and state

  predicate Terminal(state: BuildState) {
    state.Completed? || state.TransitiveFailure?
  }

  /** An insertion evicts a drv that is still to be built exactly if the oldest entry is one. */
  lemma EvictsUnfinishedIff(g: Graph, drv: Drv, now: nat)
    requires drv.id !in g.nodes
    ensures (exists n :: n in g.nodes && n !in InsertNode(g, drv, now).graph.nodes && !Terminal(g.nodes[n].state))
       <==> |g.order| == g.capacity && !Terminal(g.nodes[g.order[0]].state)
  {
    var h := InsertNode(g, drv, now).graph;
    if |g.order| == g.capacity {
      var victim := g.order[0];
      assert victim in g.order && victim in g.nodes && victim !in h.nodes;
      assert forall n :: n in g.nodes && n !in h.nodes ==> n == victim;
    } else {
      assert forall n :: n in g.nodes ==> n in h.nodes;
    }
  }

  // ---------------------------------------------------------------- propagating and clearing

  /** What a propagation followed by the clear of the same failure leaves of a node. */
  function BlockedAndReleased(node: Node, failure: DrvId): Node {
    var rest := node.blockers - {failure};
    node.(blockers := rest, state := if rest == {} then Queued else TransitiveFailure)
  }

  lemma PropagateThenClear(g: Graph, f: DrvId, n: DrvId)
    requires n in g.nodes
    ensures var r := Graphs.ClearFailure(Graphs.PropagateFailure(g, f), f);
            && r.nodes.Keys == g.nodes.Keys && f !in r.failureMap
            && r.nodes[n] == if n in TransitiveDependents(g.nodes, f) then BlockedAndReleased(g.nodes[n], f) else g.nodes[n]
  {
    var node := g.nodes[n];
    assert node.blockers + {f} - {f} == node.blockers - {f};
  }

  /** A dependent that the two commands give back as it was. */
  predicate Restored(node: Node, failure: DrvId) {
    failure !in node.blockers && node.state == if node.blockers == {} then Queued else TransitiveFailure
  }

  lemma RestoredIsUnchanged(node: Node, failure: DrvId)
    ensures Restored(node, failure) <==> BlockedAndReleased(node, failure) == node
  {
    if failure !in node.blockers { assert node.blockers - {failure} == node.blockers; }
  }

  /**
   Clearing a failure undoes its propagation on the nodes if and only if it blocked no
   dependent before, and each dependent was queued or, with other blockers, already failed.
   */
  lemma ClearUndoesPropagateIff(g: Graph, f: DrvId)
    ensures Graphs.ClearFailure(Graphs.PropagateFailure(g, f), f).nodes == g.nodes <==>
            forall n :: n in TransitiveDependents(g.nodes, f) && n in g.nodes ==> Restored(g.nodes[n], f)
  {
    var r := Graphs.ClearFailure(Graphs.PropagateFailure(g, f), f);
    forall n | n in g.nodes ensures n in r.nodes && (r.nodes[n] == g.nodes[n] <==> (n in TransitiveDependents(g.nodes, f) ==> Restored(g.nodes[n], f))) {
      PropagateThenClear(g, f, n);
      RestoredIsUnchanged(g.nodes[n], f);
    }
    assert r.nodes.Keys == g.nodes.Keys;
  }

  /**
   A clear does not write to the stored drvs. A dependent that a propagation marked as failed
   is stored like that after the clear, which agrees with the graph only if it is still blocked.
   */
  lemma ClearIsStoredIff(s: Service, f: DrvId, n: DrvId)
    requires n in TransitiveDependents(s.graph.nodes, f) && n in s.graph.nodes && n in s.db.drvs
    ensures var t := Services.ClearFailure(Services.PropagateFailure(s, f), f);
            && n in t.db.drvs && n in t.graph.nodes
            && (t.db.drvs[n].state == t.graph.nodes[n].state <==> s.graph.nodes[n].blockers - {f} != {})
  {
    PropagateThenClear(s.graph, f, n);
  }
}
