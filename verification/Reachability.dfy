/**
 Reverse reachability: which drvs transitively depend on a drv, as the cached nodes
 record it. A drv that is not cached has no outgoing edges.
 */
module Reachability {
  import opened Drvs

  datatype Node = Node(
    id: DrvId,
    meta: Meta,
    state: BuildState,
    dependencies: seq<DrvId>,
    dependents: seq<DrvId>,
    blockers: set<DrvId>)

  type Nodes = map<DrvId, Node>

  /** `to` is listed as a direct dependent of the cached drv `from`. */
  predicate Edge(nodes: Nodes, from: DrvId, to: DrvId) {
    from in nodes && to in nodes[from].dependents
  }

  predicate IsPath(nodes: Nodes, p: seq<DrvId>) {
    p != [] && forall i :: 0 < i < |p| ==> Edge(nodes, p[i - 1], p[i])
  }

  ghost predicate Reaches(nodes: Nodes, from: DrvId, to: DrvId) {
    exists p :: IsPath(nodes, p) && p[0] == from && p[|p| - 1] == to
  }

  /** Every drv that some cached node lists as a dependent. */
  function Listed(nodes: Nodes): (r: set<DrvId>)
    ensures forall a, b :: Edge(nodes, a, b) ==> b in r
  {
    set a, b | a in nodes && b in nodes[a].dependents :: b
  }

  /** The drvs other than `id` that depend on it, directly or not. */
  ghost function TransitiveDependents(nodes: Nodes, id: DrvId): (r: set<DrvId>)
    ensures forall n :: n in r <==> n != id && Reaches(nodes, id, n)
  {
    forall n | n != id && Reaches(nodes, id, n) ensures n in Listed(nodes) {
      var p :| IsPath(nodes, p) && p[0] == id && p[|p| - 1] == n;
      assert Edge(nodes, p[|p| - 2], p[|p| - 1]);
    }
    set n | n in Listed(nodes) && n != id && Reaches(nodes, id, n)
  }

  lemma ReachesSelf(nodes: Nodes, a: DrvId)
    ensures Reaches(nodes, a, a)
  {
    assert IsPath(nodes, [a]);
  }

  lemma ReachesStep(nodes: Nodes, a: DrvId, b: DrvId, c: DrvId)
    requires Reaches(nodes, a, b) && Edge(nodes, b, c)
    ensures Reaches(nodes, a, c)
  {
    var p :| IsPath(nodes, p) && p[0] == a && p[|p| - 1] == b;
    var q := p + [c];
    assert IsPath(nodes, q) && q[0] == a && q[|q| - 1] == c;
  }

  /** A set closed under edges contains everything reachable from its members. */
  lemma {:induction false} ClosedContains(nodes: Nodes, closed: set<DrvId>, p: seq<DrvId>)
    requires forall a, b :: a in closed && Edge(nodes, a, b) ==> b in closed
    requires IsPath(nodes, p) && p[0] in closed
    ensures p[|p| - 1] in closed
    decreases |p|
  {
    if |p| > 1 {
      assert Edge(nodes, p[0], p[1]);
      var q := p[1..];
      assert IsPath(nodes, q) by {
        forall i | 0 < i < |q| ensures Edge(nodes, q[i - 1], q[i]) {
          assert Edge(nodes, p[i], p[i + 1]);
        }
      }
      ClosedContains(nodes, closed, q);
    }
  }

  /** Reachability is the least set that contains the start and is closed under edges. */
  lemma ReachableIsLeastClosed(nodes: Nodes, closed: set<DrvId>, from: DrvId, to: DrvId)
    requires forall a, b :: a in closed && Edge(nodes, a, b) ==> b in closed
    requires from in closed && Reaches(nodes, from, to)
    ensures to in closed
  {
    var p :| IsPath(nodes, p) && p[0] == from && p[|p| - 1] == to;
    ClosedContains(nodes, closed, p);
  }

  /** More edges reach at least as far. */
  lemma ReachesMonotone(nodes: Nodes, more: Nodes, a: DrvId, b: DrvId)
    requires forall x, y :: Edge(nodes, x, y) ==> Edge(more, x, y)
    requires Reaches(nodes, a, b)
    ensures Reaches(more, a, b)
  {
    var p :| IsPath(nodes, p) && p[0] == a && p[|p| - 1] == b;
    assert IsPath(more, p);
  }

  /** Reachability depends on the dependent lists alone, not on states or blockers. */
  lemma SameEdgesSameReach(nodes: Nodes, other: Nodes, id: DrvId)
    requires nodes.Keys == other.Keys
    requires forall n :: n in nodes ==> nodes[n].dependents == other[n].dependents
    ensures forall b :: Reaches(nodes, id, b) <==> Reaches(other, id, b)
    ensures TransitiveDependents(nodes, id) == TransitiveDependents(other, id)
  {
    forall b ensures Reaches(nodes, id, b) <==> Reaches(other, id, b) {
      if Reaches(nodes, id, b) { ReachesMonotone(nodes, other, id, b); }
      if Reaches(other, id, b) { ReachesMonotone(other, nodes, id, b); }
    }
  }

  // ---------------------------------------------------------------- from a set of drvs

  /** `n` is one of the `start` drvs or depends on one. */
  ghost predicate ReachedFrom(nodes: Nodes, start: set<DrvId>, n: DrvId) {
    exists s :: s in start && Reaches(nodes, s, n)
  }

  lemma ReachedFromEither(nodes: Nodes, a: set<DrvId>, b: set<DrvId>, n: DrvId)
    ensures ReachedFrom(nodes, a + b, n) <==> ReachedFrom(nodes, a, n) || ReachedFrom(nodes, b, n)
  {
  }

  /** The `start` drvs together with everything that depends on one of them. */
  ghost function ReachSet(nodes: Nodes, start: set<DrvId>): (r: set<DrvId>)
    ensures forall n :: n in r <==> ReachedFrom(nodes, start, n)
  {
    forall n | ReachedFrom(nodes, start, n) ensures n in start + Listed(nodes) {
      var s :| s in start && Reaches(nodes, s, n);
      assert n == s || n in TransitiveDependents(nodes, s);
    }
    set n | n in start + Listed(nodes) && ReachedFrom(nodes, start, n)
  }

  ghost predicate ClosedUnderEdges(nodes: Nodes, ids: set<DrvId>) {
    forall a, b :: a in ids && Edge(nodes, a, b) ==> b in ids
  }

  lemma ReachSetClosed(nodes: Nodes, start: set<DrvId>)
    ensures start <= ReachSet(nodes, start)
    ensures ClosedUnderEdges(nodes, ReachSet(nodes, start))
  {
    forall s | s in start ensures ReachedFrom(nodes, start, s) { ReachesSelf(nodes, s); }
    forall a, b | a in ReachSet(nodes, start) && Edge(nodes, a, b) ensures b in ReachSet(nodes, start) {
      var s :| s in start && Reaches(nodes, s, a);
      ReachesStep(nodes, s, a, b);
    }
  }

  lemma ReachSetLeast(nodes: Nodes, start: set<DrvId>, closed: set<DrvId>)
    requires start <= closed && ClosedUnderEdges(nodes, closed)
    ensures ReachSet(nodes, start) <= closed
  {
    forall n | n in ReachSet(nodes, start) ensures n in closed {
      var s :| s in start && Reaches(nodes, s, n);
      ReachableIsLeastClosed(nodes, closed, s, n);
    }
  }

  lemma ReachSetOfOne(nodes: Nodes, id: DrvId)
    ensures ReachSet(nodes, {id}) - {id} == TransitiveDependents(nodes, id)
  {
    forall n ensures ReachedFrom(nodes, {id}, n) <==> Reaches(nodes, id, n) {
      assert id in {id};
    }
  }
}
