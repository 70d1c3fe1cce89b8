/**
 Failure tracking below the cache's capacity: over every run of graph operations the
 failure map and the blocker sets of the nodes describe the same relation.
 */
module FailureTracking {
  import opened Drvs
  import opened Reachability
  import opened Graphs
  import opened GraphOps

  predicate BlockedBy(g: Graph, n: DrvId, f: DrvId) {
    n in g.nodes && f in g.nodes[n].blockers
  }

  /** Both ends of every edge are cached. */
  ghost predicate Closed(g: Graph) {
    forall a, b :: Edge(g.nodes, a, b) ==> b in g.nodes
  }

  /** A failure with a map entry blocks exactly the drvs of that entry. */
  ghost predicate Tracked(g: Graph) {
    forall f, n :: f in g.failureMap ==> (n in g.failureMap[f] <==> BlockedBy(g, n, f))
  }

  /** A drv is blocked only by drvs it transitively depends on, never by itself. */
  ghost predicate Justified(g: Graph) {
    forall n, f :: BlockedBy(g, n, f) ==> n in TransitiveDependents(g.nodes, f)
  }

  /** Every blocker still has its map entry. */
  ghost predicate Remembered(g: Graph) {
    forall n, f :: BlockedBy(g, n, f) ==> f in g.failureMap
  }

  /** The buckets are exact, hence pairwise disjoint. */
  ghost predicate IndexExact(g: Graph) {
    forall s, d :: (s, d) in g.index <==> d in g.nodes && g.nodes[d].state == s
  }

  /** A blocked drv is in state TransitiveFailure. */
  ghost predicate BlockedAreFailed(g: Graph) {
    forall n :: n in g.nodes && g.nodes[n].blockers != {} ==> g.nodes[n].state == TransitiveFailure
  }

  ghost predicate Tracking(g: Graph) {
    Closed(g) && Tracked(g) && Justified(g) && IndexExact(g)
  }

  /** The failure map and the blocker sets are inverse relations. */
  ghost predicate Inverse(g: Graph) {
    forall n, f :: BlockedBy(g, n, f) <==> f in g.failureMap && n in g.failureMap[f]
  }

  // ---------------------------------------------------------------- single operations

  /** In a closed graph every transitive dependent is cached. */
  lemma DependentsAreCached(g: Graph, f: DrvId)
    requires Closed(g)
    ensures TransitiveDependents(g.nodes, f) <= g.nodes.Keys
  {
    forall n | n in TransitiveDependents(g.nodes, f) ensures n in g.nodes {
      var p :| IsPath(g.nodes, p) && p[0] == f && p[|p| - 1] == n;
      assert Edge(g.nodes, p[|p| - 2], p[|p| - 1]);
    }
  }

  /** Blockers stay justified when edges are only added and blockers only dropped. */
  lemma JustifiedMonotone(g: Graph, h: Graph)
    requires Justified(g)
    requires forall a, b :: Edge(g.nodes, a, b) ==> Edge(h.nodes, a, b)
    requires forall n, f :: BlockedBy(h, n, f) ==> BlockedBy(g, n, f)
    ensures Justified(h)
  {
    forall n, f | BlockedBy(h, n, f) ensures n in TransitiveDependents(h.nodes, f) {
      ReachesMonotone(g.nodes, h.nodes, f, n);
    }
  }

  lemma InsertKeepsTracking(g: Graph, drv: Drv, now: nat)
    requires Tracking(g) && Allowed(g, Insert(drv, now))
    ensures Tracking(InsertNode(g, drv, now).graph)
  {
    var h := InsertNode(g, drv, now).graph;
    assert forall a, b :: Edge(h.nodes, a, b) <==> Edge(g.nodes, a, b);
    assert forall n, f :: BlockedBy(h, n, f) <==> BlockedBy(g, n, f);
    JustifiedMonotone(g, h);
  }

  lemma LinkKeepsTracking(g: Graph, referrer: DrvId, reference: DrvId)
    requires Tracking(g) && Allowed(g, Link(referrer, reference))
    ensures Tracking(AddEdge(g, referrer, reference))
  {
    var h := AddEdge(g, referrer, reference);
    AddEdgesEffect(g, [(referrer, reference)]);
    assert AddEdges(g, [(referrer, reference)]) == h;
    assert forall a, b :: Edge(h.nodes, a, b) <==> Edge(g.nodes, a, b) || (b, a) == (referrer, reference);
    assert forall n, f :: BlockedBy(h, n, f) <==> BlockedBy(g, n, f);
    JustifiedMonotone(g, h);
  }

  lemma SetStateKeepsTracking(g: Graph, id: DrvId, state: BuildState, now: nat)
    requires Tracking(g)
    ensures Tracking(UpdateState(g, id, state, now))
  {
    var h := UpdateState(g, id, state, now);
    assert forall a, b :: Edge(h.nodes, a, b) <==> Edge(g.nodes, a, b);
    assert forall n, f :: BlockedBy(h, n, f) <==> BlockedBy(g, n, f);
    JustifiedMonotone(g, h);
  }

  /** Who is blocked after a propagation: the dependents of the failure, and everyone who was. */
  lemma PropagateBlocks(g: Graph, failure: DrvId)
    requires Closed(g)
    ensures var h := PropagateFailure(g, failure);
            && h.nodes.Keys == g.nodes.Keys
            && (forall n :: n in g.nodes ==> h.nodes[n].dependents == g.nodes[n].dependents)
            && forall n, f :: BlockedBy(h, n, f) <==>
                 BlockedBy(g, n, f) || (f == failure && n in TransitiveDependents(g.nodes, failure))
  {
    DependentsAreCached(g, failure);
  }

  lemma PropagateKeepsTracking(g: Graph, failure: DrvId)
    requires Tracking(g)
    ensures Tracking(PropagateFailure(g, failure))
  {
    var h := PropagateFailure(g, failure);
    var blocked := TransitiveDependents(g.nodes, failure);
    PropagateBlocks(g, failure);
    DependentsAreCached(g, failure);
    forall f ensures TransitiveDependents(h.nodes, f) == TransitiveDependents(g.nodes, f) {
      SameEdgesSameReach(g.nodes, h.nodes, f);
    }
    assert Justified(h);
    assert Tracked(h) by {
      forall f, n | f in h.failureMap ensures n in h.failureMap[f] <==> BlockedBy(h, n, f) {
        if f == failure {
          assert BlockedBy(g, n, f) ==> n in blocked;
        }
      }
    }
    assert forall a, b :: Edge(h.nodes, a, b) <==> Edge(g.nodes, a, b);
    assert IndexExact(h);
  }

  lemma ClearBlocks(g: Graph, failure: DrvId)
    requires Tracked(g)
    ensures var h := ClearFailure(g, failure);
            && h.nodes.Keys == g.nodes.Keys
            && (forall n :: n in g.nodes ==> h.nodes[n].dependents == g.nodes[n].dependents)
            && forall n, f :: BlockedBy(h, n, f) <==> BlockedBy(g, n, f) && !(f == failure && failure in g.failureMap)
  {
    var h := ClearFailure(g, failure);
    if failure in g.failureMap {
      forall n, f ensures BlockedBy(h, n, f) <==> BlockedBy(g, n, f) && f != failure {
        assert n in g.failureMap[failure] <==> BlockedBy(g, n, failure);
      }
    }
  }

  lemma ClearKeepsTracking(g: Graph, failure: DrvId)
    requires Tracking(g)
    ensures Tracking(ClearFailure(g, failure))
  {
    var h := ClearFailure(g, failure);
    ClearBlocks(g, failure);
    assert forall a, b :: Edge(h.nodes, a, b) <==> Edge(g.nodes, a, b);
    JustifiedMonotone(g, h);
    assert IndexExact(h);
  }

  lemma ForgetKeepsTracking(g: Graph, cutoff: nat)
    requires Tracking(g)
    ensures Tracking(EvictStaleFailures(g, cutoff))
  {
    var h := EvictStaleFailures(g, cutoff);
    assert forall n, f :: BlockedBy(h, n, f) <==> BlockedBy(g, n, f);
  }

  lemma ApplyKeepsTracking(g: Graph, op: Op)
    requires Tracking(g) && Allowed(g, op)
    ensures Tracking(Apply(g, op))
  {
    match op
    case Insert(drv, now) => InsertKeepsTracking(g, drv, now);
    case Link(referrer, reference) => LinkKeepsTracking(g, referrer, reference);
    case SetState(id, state, now) => SetStateKeepsTracking(g, id, state, now);
    case Propagate(failure) => PropagateKeepsTracking(g, failure);
    case Clear(failure) => ClearKeepsTracking(g, failure);
    case Forget(cutoff) => ForgetKeepsTracking(g, cutoff);
  }

  lemma InsertBlocksNobody(g: Graph, drv: Drv, now: nat, n: DrvId, f: DrvId)
    requires BlockedBy(InsertNode(g, drv, now).graph, n, f)
    ensures BlockedBy(g, n, f)
  {
  }

  /** The blockers of the nodes after any operation that may run below capacity. */
  lemma ApplyKeepsRemembered(g: Graph, op: Op)
    requires Tracking(g) && Allowed(g, op) && Remembered(g) && !op.Forget?
    ensures Remembered(Apply(g, op))
  {
    var h := Apply(g, op);
    match op
    case Propagate(failure) => PropagateBlocks(g, failure);
    case Clear(failure) => ClearBlocks(g, failure);
    case Insert(drv, now) =>
      forall n, f | BlockedBy(h, n, f) ensures BlockedBy(g, n, f) { InsertBlocksNobody(g, drv, now, n, f); }
    case Link(_, _) => assert forall n, f :: BlockedBy(h, n, f) ==> BlockedBy(g, n, f);
    case SetState(_, _, _) => assert forall n, f :: BlockedBy(h, n, f) ==> BlockedBy(g, n, f);
  }

  // ---------------------------------------------------------------- whole runs

  /** Over every run below capacity, including the periodic forgetting of old failures. */
  lemma RunKeepsTracking(g: Graph, ops: seq<Op>)
    requires Tracking(g) && Along(Allowed, g, ops)
    ensures Tracking(RunOps(g, ops))
  {
    forall h, op | Tracking(h) && Allowed(h, op) ensures Tracking(Apply(h, op)) { ApplyKeepsTracking(h, op); }
    RunOpsKeep(Tracking, Allowed, g, ops);
  }

  ghost predicate Exact(g: Graph) {
    Tracking(g) && Inverse(g)
  }

  /** Without forgetting, the failure map and the blocker sets stay inverse to each other. */
  lemma RunKeepsInverse(g: Graph, ops: seq<Op>)
    requires Tracking(g) && Inverse(g) && Along(Allowed, g, ops) && Along(Remembering, g, ops)
    ensures Tracking(RunOps(g, ops)) && Inverse(RunOps(g, ops))
  {
    var q := Both(Allowed, Remembering);
    forall h, op | Exact(h) && q(h, op) ensures Exact(Apply(h, op)) {
      assert Allowed(h, op) && Remembering(h, op);
      ApplyKeepsTracking(h, op);
      ApplyKeepsRemembered(h, op);
    }
    AlongBoth(Allowed, Remembering, g, ops);
    RunOpsKeep(Exact, q, g, ops);
  }

  lemma ApplyKeepsBlockedFailed(g: Graph, op: Op)
    requires BlockedAreFailed(g) && Sparing(g, op)
    ensures BlockedAreFailed(Apply(g, op))
  {
    match op
    case Insert(_, _) =>
    case Link(_, _) =>
    case SetState(_, _, _) =>
    case Propagate(_) =>
    case Clear(_) =>
    case Forget(_) =>
  }

  /** A blocked drv stays in TransitiveFailure for as long as anything blocks it. */
  lemma RunKeepsBlockedFailed(g: Graph, ops: seq<Op>)
    requires BlockedAreFailed(g) && Along(Sparing, g, ops)
    ensures BlockedAreFailed(RunOps(g, ops))
  {
    forall h, op | BlockedAreFailed(h) && Sparing(h, op) ensures BlockedAreFailed(Apply(h, op)) { ApplyKeepsBlockedFailed(h, op); }
    RunOpsKeep(BlockedAreFailed, Sparing, g, ops);
  }

  // ---------------------------------------------------------------- clearing

  /** `h` is `g` with `f` cleared, as far as drv `n` and bucket `s` are concerned. */
  predicate ClearedAt(g: Graph, h: Graph, f: DrvId, n: DrvId, s: BuildState) {
    var hit := f in g.failureMap && n in g.failureMap[f] && n in g.nodes;
    && h.failureMap == g.failureMap - {f}
    && h == g.(nodes := h.nodes, index := h.index, failureMap := h.failureMap)
    && (n in h.nodes <==> n in g.nodes)
    && (n in g.nodes ==> h.nodes[n] == if hit then Unblock(g.nodes[n], f) else g.nodes[n])
    && ((s, n) in h.index <==>
          if hit && g.nodes[n].blockers - {f} == {}
          then s == Queued || ((s, n) in g.index && s != g.nodes[n].state)
          else (s, n) in g.index)
  }

  lemma ClearPointwise(g: Graph, f: DrvId, n: DrvId, s: BuildState)
    ensures ClearedAt(g, ClearFailure(g, f), f, n, s)
  {
    if f !in g.failureMap {
      assert g.failureMap - {f} == g.failureMap;
    }
  }

  ghost predicate AgreeAt(a: Graph, b: Graph, n: DrvId, s: BuildState) {
    && (n in a.nodes <==> n in b.nodes)
    && (n in a.nodes ==> a.nodes[n] == b.nodes[n])
    && ((s, n) in a.index <==> (s, n) in b.index)
    && a == b.(nodes := a.nodes, index := a.index)
  }

  /** Unblocking for two failures gives the same node in either order. */
  lemma UnblocksCommute(node: Node, f: DrvId, h: DrvId)
    ensures Unblock(Unblock(node, f), h) == Unblock(Unblock(node, h), f)
  {
    assert node.blockers - {f} - {h} == node.blockers - {h} - {f};
  }

  lemma ClearsAgreeOnNode(g: Graph, gf: Graph, gh: Graph, a: Graph, b: Graph, f: DrvId, h: DrvId, n: DrvId, s: BuildState)
    requires ClearedAt(g, gf, f, n, s) && ClearedAt(gf, a, h, n, s)
    requires ClearedAt(g, gh, h, n, s) && ClearedAt(gh, b, f, n, s)
    ensures a == b.(nodes := a.nodes, index := a.index)
    ensures n in a.nodes <==> n in b.nodes
    ensures n in a.nodes ==> a.nodes[n] == b.nodes[n]
  {
    assert g.failureMap - {f} - {h} == g.failureMap - {h} - {f};
    if n in g.nodes { UnblocksCommute(g.nodes[n], f, h); }
  }

  lemma ClearsAgreeOnBucket(g: Graph, gf: Graph, gh: Graph, a: Graph, b: Graph, f: DrvId, h: DrvId, n: DrvId, s: BuildState)
    requires ClearedAt(g, gf, f, n, s) && ClearedAt(gf, a, h, n, s)
    requires ClearedAt(g, gh, h, n, s) && ClearedAt(gh, b, f, n, s)
    ensures (s, n) in a.index <==> (s, n) in b.index
  {
    if n in g.nodes {
      assert g.nodes[n].blockers - {f} - {h} == g.nodes[n].blockers - {h} - {f};
    }
  }

  lemma ClearsAgreeAt(g: Graph, gf: Graph, gh: Graph, a: Graph, b: Graph, f: DrvId, h: DrvId, n: DrvId, s: BuildState)
    requires ClearedAt(g, gf, f, n, s) && ClearedAt(gf, a, h, n, s)
    requires ClearedAt(g, gh, h, n, s) && ClearedAt(gh, b, f, n, s)
    ensures AgreeAt(a, b, n, s)
  {
    ClearsAgreeOnNode(g, gf, gh, a, b, f, h, n, s);
    ClearsAgreeOnBucket(g, gf, gh, a, b, f, h, n, s);
  }

  lemma AgreeEverywhere(a: Graph, b: Graph)
    requires forall n, s :: AgreeAt(a, b, n, s)
    ensures a == b
  {
    var n, s := DrvId(""), Queued;
    assert AgreeAt(a, b, n, s);
    forall n ensures (n in a.nodes <==> n in b.nodes) && (n in a.nodes ==> a.nodes[n] == b.nodes[n]) {
      assert AgreeAt(a, b, n, s);
    }
    assert a.nodes == b.nodes;
    forall p ensures p in a.index <==> p in b.index {
      assert AgreeAt(a, b, p.1, p.0);
    }
  }

  /** Clearing two failures gives the same graph in either order, from every graph. */
  lemma ClearCommutes(g: Graph, f: DrvId, h: DrvId)
    ensures ClearFailure(ClearFailure(g, f), h) == ClearFailure(ClearFailure(g, h), f)
  {
    var gf, gh := ClearFailure(g, f), ClearFailure(g, h);
    var a, b := ClearFailure(gf, h), ClearFailure(gh, f);
    forall n, s ensures AgreeAt(a, b, n, s) {
      ClearPointwise(g, f, n, s);
      ClearPointwise(gf, h, n, s);
      ClearPointwise(g, h, n, s);
      ClearPointwise(gh, f, n, s);
      ClearsAgreeAt(g, gf, gh, a, b, f, h, n, s);
    }
    AgreeEverywhere(a, b);
  }

  /** A clear releases a drv exactly when the cleared failure is its last blocker. */
  lemma UnblockedIsLastBlocker(g: Graph, f: DrvId, n: DrvId)
    requires Inverse(g)
    ensures n in Unblocked(g, f) <==> n in g.nodes && g.nodes[n].blockers == {f}
  {
    if n in g.nodes && f in g.failureMap {
      assert n in g.failureMap[f] <==> BlockedBy(g, n, f);
    } else if n in g.nodes {
      assert !BlockedBy(g, n, f);
    }
  }

  function ClearAll(g: Graph, fs: seq<DrvId>): Graph
    decreases |fs|
  {
    if fs == [] then g else ClearAll(ClearFailure(g, fs[0]), fs[1..])
  }

  /** How many of the clears report `n` as unblocked. */
  function Reports(g: Graph, fs: seq<DrvId>, n: DrvId): nat
    decreases |fs|
  {
    if fs == [] then 0
    else (if n in Unblocked(g, fs[0]) then 1 else 0) + Reports(ClearFailure(g, fs[0]), fs[1..], n)
  }

  lemma ClearKeepsInverse(g: Graph, f: DrvId)
    requires Inverse(g)
    ensures Inverse(ClearFailure(g, f))
  {
    assert Tracked(g);
    ClearBlocks(g, f);
  }

  /**
   Over every sequence of clears, with repetitions and in any order, a blocked drv is
   reported exactly once if all its blockers are cleared and never otherwise; it keeps the
   blockers that were not cleared, and its state changes to Queued only with the report.
   */
  lemma {:induction false} ReportedExactlyOnce(g: Graph, fs: seq<DrvId>, n: DrvId)
    requires Inverse(g) && n in g.nodes
    ensures var released := g.nodes[n].blockers != {} && forall f :: f in g.nodes[n].blockers ==> f in fs;
            var after := ClearAll(g, fs);
            && n in after.nodes
            && Reports(g, fs, n) == (if released then 1 else 0)
            && after.nodes[n].state == (if released then Queued else g.nodes[n].state)
            && forall f :: f in after.nodes[n].blockers <==> f in g.nodes[n].blockers && f !in fs
    decreases |fs|
  {
    if fs != [] {
      var h := ClearFailure(g, fs[0]);
      ClearKeepsInverse(g, fs[0]);
      ClearBlocks(g, fs[0]);
      UnblockedIsLastBlocker(g, fs[0], n);
      ReportedExactlyOnce(h, fs[1..], n);
      assert forall f :: f in fs <==> f == fs[0] || f in fs[1..];
      assert forall f :: BlockedBy(h, n, f) <==> f in h.nodes[n].blockers;
      assert forall f :: BlockedBy(g, n, f) <==> f in g.nodes[n].blockers;
      assert h.nodes[n].blockers == g.nodes[n].blockers - {fs[0]};
    }
  }

  /** From every graph: a clear takes the failure from exactly the drvs that its map entry names. */
  lemma ClearReleases(g: Graph, f: DrvId, n: DrvId)
    ensures BlockedBy(ClearFailure(g, f), n, f) <==> BlockedBy(g, n, f) && !(f in g.failureMap && n in g.failureMap[f])
  {
  }

  /**
   From every graph: clearing a failure frees everyone it blocks if and only if its map entry
   still names each of them. Forgetting removes the entry, and a later propagation over fewer
   edges replaces it by a smaller one.
   */
  lemma ClearReleasesIff(g: Graph, f: DrvId)
    ensures (forall n :: !BlockedBy(ClearFailure(g, f), n, f))
       <==> forall n :: BlockedBy(g, n, f) ==> f in g.failureMap && n in g.failureMap[f]
  {
    forall n ensures BlockedBy(ClearFailure(g, f), n, f) <==> BlockedBy(g, n, f) && !(f in g.failureMap && n in g.failureMap[f]) {
      ClearReleases(g, f, n);
    }
  }

  /** From every graph: a propagation and the clear after it free everyone if and only if all that were blocked are still reached. */
  lemma PropagateThenClearReleasesIff(g: Graph, f: DrvId)
    ensures (forall n :: !BlockedBy(ClearFailure(PropagateFailure(g, f), f), n, f))
       <==> forall n :: BlockedBy(g, n, f) ==> n in TransitiveDependents(g.nodes, f)
  {
    var h := PropagateFailure(g, f);
    ClearReleasesIff(h, f);
    forall n ensures BlockedBy(h, n, f) <==> BlockedBy(g, n, f) || (n in g.nodes && n in TransitiveDependents(g.nodes, f)) { }
  }

  /** With exact tracking the entry names everyone as long as it is there. */
  lemma TrackedClearReleasesIff(g: Graph, f: DrvId)
    requires Tracking(g)
    ensures (forall n :: !BlockedBy(ClearFailure(g, f), n, f))
       <==> f in g.failureMap || forall n :: !BlockedBy(g, n, f)
  {
    ClearReleasesIff(g, f);
  }

  /**
   The failing family of the forgetting: a failure with a recorded time before the cutoff that
   blocks someone. Clearing it afterwards changes nothing and the drv stays blocked.
   */
  lemma ForgottenFailureKeepsBlocking(g: Graph, f: DrvId, n: DrvId, cutoff: nat)
    requires BlockedBy(g, n, f) && f in g.failed && g.failed[f] < cutoff
    ensures var h := EvictStaleFailures(g, cutoff);
            ClearFailure(h, f) == h && BlockedBy(ClearFailure(h, f), n, f) && Unblocked(h, f) == {}
  {
    var h := EvictStaleFailures(g, cutoff);
    assert f !in h.failureMap;
  }

  /** The drv is blocked by a failure without a map entry. */
  predicate Stranded(g: Graph, f: DrvId, n: DrvId) {
    BlockedBy(g, n, f) && f !in g.failureMap
  }

  lemma ApplyKeepsStranded(g: Graph, op: Op, f: DrvId, n: DrvId)
    requires Stranded(g, f, n) && Allowed(g, op) && op != Propagate(f)
    ensures Stranded(Apply(g, op), f, n)
  {
    match op
    case Insert(_, _) =>
    case Link(_, _) =>
    case SetState(_, _, _) =>
    case Propagate(_) =>
    case Clear(_) =>
    case Forget(_) =>
  }

  /** Below capacity a forgotten failure blocks through every run, clears included, until it is propagated again. */
  lemma {:induction false} ForgottenUntilPropagated(g: Graph, f: DrvId, n: DrvId, ops: seq<Op>)
    requires Stranded(g, f, n) && Along(Allowed, g, ops) && forall i :: 0 <= i < |ops| ==> ops[i] != Propagate(f)
    ensures Stranded(RunOps(g, ops), f, n)
    decreases |ops|
  {
    if ops != [] {
      ApplyKeepsStranded(g, ops[0], f, n);
      ForgottenUntilPropagated(Apply(g, ops[0]), f, n, ops[1..]);
    }
  }

  /** The next propagation that reaches the drv, and the clear after it, release it. */
  lemma PropagatingAgainReleases(g: Graph, f: DrvId, n: DrvId)
    requires n in TransitiveDependents(g.nodes, f)
    ensures !BlockedBy(ClearFailure(PropagateFailure(g, f), f), n, f)
  {
    ClearReleases(PropagateFailure(g, f), f, n);
  }
}
